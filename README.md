# AVL tree rebalancing and the equal-paths check, in Dafny

This project models two pieces of a small C++ data-structures repository.

**`avlbst.h`, the AVL tree.** `AVLTree<Key,Value>` is a binary search tree of
linked `AVLNode`s. Each node stores a key, a value, links to its left child,
right child and parent, and a balance factor: height(right) − height(left).
After every insertion and removal the tree is rebalanced by rotations so
that every factor stays within −1..1.

The model keeps the source's imperative form:

- `AvlNode.Node` is a class with the node's fields. Its methods set or
  adjust the balance in place.
- `AvlTreeHeap.AVLTree` is a class with the `root` pointer. Its methods
  follow `insert`, `insertMe`, `remove`, `removeMe`, `rotateLeft` and
  `rotateRight` statement by statement, on the heap. `nodeSwap` is modelled
  as an exchange of entries (see "Left out").

Each method is tied to a ghost view of the tree, held in ghost fields:

- `shape` is a binary tree of node references. A zipper context (`Ctx`) says
  where a subtree sits in it.
- `links`, `bals` and `kv` record each owned node's links, balance factor and
  (key, value) pair.

`Valid()` is the invariant every public operation keeps:

- the links agree with the shape, parent links included;
- keys strictly increase in order;
- every factor equals the true height difference and lies in −1..1.

The per-case rebalancing arithmetic is proved on the ghost view alone, as
lemmas in `AvlBalance`. Each lemma is one case of the fixup code. The
ordering and contents facts are in `AvlOrder` and `SortedEntries`.
`insert` and `remove` are proved to update the key-to-value map exactly as
a map insertion or removal would.

**`equal-paths.cpp`, the path check.** `getHeight` computes a tree's height
in post-order. Through a by-reference flag it also reports whether some node
with two children has subtrees of different heights. `equalPaths` returns
that flag. The model is pure:

- the tree is a datatype;
- the flag is threaded through the recursion as a value.

The model proves that the flag is true exactly when all root-to-leaf paths
have the same number of nodes.

A node with one child returns early (`equal-paths.cpp:19-24`) and never
clears the flag, so a left-only chain passes (`EqualPaths.LeftChainEqual`).
For the same reason, a path in `EqualPaths.PathLengths` runs on through a
single child and ends only at a node with no children.

## Model

| member | source | states |
|---|---|---|
| AvlNode.Node.constructor | avlbst.h:51-56 | A new node holds the given key, value and parent, has no children and has balance 0. |
| AvlNode.Node.SetBalance | avlbst.h:79-83 | setBalance overwrites the balance and changes no other field. |
| AvlNode.Node.UpdateBalance | avlbst.h:88-92 | updateBalance adds diff to the balance and changes no other field. |
| AvlNode.Node.SetValue | avlbst.h:148 | setValue overwrites the value and changes no other field. |
| AvlNode.Node.SwapEntry | avlbst.h:431-438 | The two nodes exchange keys and values, and nothing else changes. This is nodeSwap seen as a content swap: each position keeps its balance. |
| AvlTreeHeap.AVLTree.ElementsSorted | avlbst.h:163-201 | In a valid tree, the in-order (key, value) entries are sorted by strictly increasing key: the search-tree order the descent relies on. |
| AvlTreeHeap.AVLTree.Find | avlbst.h:262-265 | The search returns the node holding k, or null exactly when k is absent. When it returns null, k fits at the empty place where the search stopped. |
| AvlTreeHeap.AVLTree.Insert | avlbst.h:143-204 | The tree stays valid and now maps k to v, with every other key unchanged. For a key already present, the node set, the shape and every balance factor are unchanged. For a new key, every old node stays and exactly one node not in the tree before is added. For an empty tree, the new node is the root, has balance 0 and has no children. |
| AvlTreeHeap.AVLTree.Revalue | avlbst.h:146-150 | Giving the found node the new value keeps the tree valid and changes the map at that key only. |
| AvlTreeHeap.AVLTree.StoreValue | avlbst.h:148 | setValue on an owned node, recorded in the entry map: only that node's value changes. |
| AvlTreeHeap.AVLTree.InsertAbsent | avlbst.h:155-202 | For a key no node holds, every old node stays and exactly one new node is added; the tree stays valid with the key added. In an empty tree, that node becomes the balanced root. |
| AvlTreeHeap.AVLTree.InsertFirst | avlbst.h:155-160 | In an empty tree, the new node becomes the root with balance 0; the tree is valid and maps only its key. |
| AvlTreeHeap.AVLTree.InsertNew | avlbst.h:161-202 | The descent loop finds the node under which the new key belongs and attaches the new node there. The tree is valid, has exactly one more node, and maps the new key to its value. |
| AvlTreeHeap.AVLTree.HangLeft | avlbst.h:166-168 | The new node becomes loc's left child with loc as its parent and balance 0. |
| AvlTreeHeap.AVLTree.HangRight | avlbst.h:185-187 | The new node becomes loc's right child with loc as its parent and balance 0. |
| AvlTreeHeap.AVLTree.Adopt | avlbst.h:155 | A freshly allocated node joins the owned nodes with its links, balance and entry as they stand. |
| AvlTreeHeap.AVLTree.HangLeftMirrored | avlbst.h:166-168 | The same attachment on the left, with the link map and balance map updated to match. |
| AvlTreeHeap.AVLTree.HangRightMirrored | avlbst.h:185-187 | The same attachment on the right, with the link map and balance map updated to match. |
| AvlTreeHeap.AVLTree.HangLeftRecorded | avlbst.h:166-168 | The attachment on the left for a node new to the tree: it is taken into every ghost map, and its key and value are unchanged. |
| AvlTreeHeap.AVLTree.HangRightRecorded | avlbst.h:185-187 | The attachment on the right for a node new to the tree: it is taken into every ghost map, and its key and value are unchanged. |
| AvlTreeHeap.AVLTree.LinkLeft | avlbst.h:165-168 | Hanging the new leaf on the left where its key fits gives the shape with the leaf there. Keys still increase in order, and the map gains the new key. |
| AvlTreeHeap.AVLTree.LinkRight | avlbst.h:184-187 | The mirror image of LinkLeft, for a leaf hung on the right. |
| AvlTreeHeap.AVLTree.AttachLeft | avlbst.h:164-177 | Attaching the new node as the left child of a node whose left is empty, where its key fits, then rebalancing: the tree is valid with one more node and the key added. |
| AvlTreeHeap.AVLTree.AttachRight | avlbst.h:183-196 | The mirror image of AttachLeft, on the right. |
| AvlTreeHeap.AVLTree.SettleLeft | avlbst.h:169-176 | The fixup after a left leaf is attached. A leaning parent is handled by AbsorbLeft; a balanced parent is set to −1 and insertMe runs (AttachGrewLeft states that this is insertMe's precondition). The contract: every factor is correct and in −1..1 again, and the in-order sequence is kept. |
| AvlTreeHeap.AVLTree.SettleRight | avlbst.h:188-195 | The mirror image of SettleLeft: a leaning parent is handled by AbsorbRight, a balanced parent is set to +1 and insertMe runs (AttachGrewRight). The contract: every factor is correct again and the in-order sequence is kept. |
| AvlTreeHeap.AVLTree.AbsorbLeft | avlbst.h:169-172 | A leaning parent takes the new left leaf: exactly its factor becomes 0, the shape and every other factor are unchanged, and every factor is correct. |
| AvlTreeHeap.AVLTree.AbsorbRight | avlbst.h:188-191 | A leaning parent takes the new right leaf: exactly its factor becomes 0, the shape and every other factor are unchanged, and every factor is correct. |
| AvlTreeHeap.AVLTree.SettleLeftValid | avlbst.h:169-176 | SettleLeft on a tree whose entries are in place: the result is a valid tree with the same node set and contents. |
| AvlTreeHeap.AVLTree.SettleRightValid | avlbst.h:188-195 | SettleRight on a tree whose entries are in place: the result is a valid tree with the same node set and contents. |
| AvlTreeHeap.AVLTree.InsertMe | avlbst.h:209-257 | insertMe starts from a subtree that grew by one level toward n. It returns at the root, otherwise adjusts the grandparent. Afterwards every factor is correct and in −1..1, and the in-order sequence is unchanged. |
| AvlTreeHeap.AVLTree.InsertMeLeft | avlbst.h:213-234 | Growth on g's left. The contract: if g leaned right (factor 1) it becomes 0 and the shape and every other factor are unchanged; in every case every factor ends correct and in −1..1 and the in-order sequence is kept. The −1 case recurses (InsertGrewLeft states its precondition); the −2 case goes to InsertMeLeftSingle or InsertMeLeftDouble, whose contracts give the exact factors. |
| AvlTreeHeap.AVLTree.InsertMeLeftSingle | avlbst.h:218-222 | Left-left case: the shape becomes the right rotation at g, exactly g and p get factor 0 and no other factor changes, every factor is then correct, and the in-order sequence is kept. |
| AvlTreeHeap.AVLTree.InsertMeLeftDouble | avlbst.h:223-232 | Left-right case: the shape becomes the rotation left at p then right at g. From the pivot n's former factor b, g gets NewRightFactor(b) (−1→1, 0→0, 1→0), p gets NewLeftFactor(b) (−1→0, 0→0, 1→−1), n gets 0, and nothing else changes; every factor is then correct. |
| AvlTreeHeap.AVLTree.InsertMeRight | avlbst.h:235-256 | The mirror image of InsertMeLeft. The contract: if g leaned left (factor −1) it becomes 0 and the shape and every other factor are unchanged; in every case every factor ends correct and the in-order sequence is kept. The +1 case recurses (InsertGrewRight); the +2 case goes to InsertMeRightSingle or InsertMeRightDouble. |
| AvlTreeHeap.AVLTree.InsertMeRightSingle | avlbst.h:240-244 | Right-right case: the shape becomes the left rotation at g, exactly g and p get factor 0 and no other factor changes, every factor is then correct, and the in-order sequence is kept. |
| AvlTreeHeap.AVLTree.InsertMeRightDouble | avlbst.h:245-254 | Right-left case: the shape becomes the rotation right at p then left at g. From the pivot n's former factor b, g gets NewLeftFactor(b) (−1→0, 0→0, 1→−1), p gets NewRightFactor(b) (−1→1, 0→0, 1→0), n gets 0, and nothing else changes; every factor is then correct. |
| AvlTreeHeap.AVLTree.RelinkLeft | avlbst.h:370-397 | The pointer surgery of rotateLeft. The right child takes curr's place under curr's parent, or becomes root. curr becomes its left child, and the child's former left subtree moves to curr's right. Only those four nodes' links change. |
| AvlTreeHeap.AVLTree.RelinkLeftMirrored | avlbst.h:370-397 | The same surgery recorded in the link map; balance factors are untouched. |
| AvlTreeHeap.AVLTree.RotateLeft | avlbst.h:369-398 | rotateLeft turns the shape at curr into its left rotation in the same place. The links stay consistent, the in-order sequence, node set and balance factors are unchanged. |
| AvlTreeHeap.AVLTree.RelinkRight | avlbst.h:401-428 | The pointer surgery of rotateRight: the mirror image of RelinkLeft. |
| AvlTreeHeap.AVLTree.RelinkRightMirrored | avlbst.h:401-428 | The same surgery recorded in the link map; balance factors are untouched. |
| AvlTreeHeap.AVLTree.RotateRight | avlbst.h:400-429 | rotateRight turns the shape at curr into its right rotation. The links stay consistent, the in-order sequence, node set and balance factors are unchanged. |
| AvlTreeHeap.AVLTree.SetBal | avlbst.h:79-83 | setBalance on an owned node, recorded in the balance map: only that node's factor changes. |
| AvlTreeHeap.AVLTree.UpdBal | avlbst.h:88-92 | updateBalance on an owned node, recorded in the balance map: only that node's factor changes, by d. |
| AvlTreeHeap.AVLTree.RotateLeftRight | avlbst.h:226-227 | Left rotation at p, then right rotation at g: the shape is the double rotation and the in-order sequence is unchanged. |
| AvlTreeHeap.AVLTree.RotateRightLeft | avlbst.h:248-249 | Right rotation at p, then left rotation at g: the shape is the double rotation and the in-order sequence is unchanged. |
| AvlTreeHeap.AVLTree.Level | avlbst.h:220-221 | g and p both get factor 0, and no other factor changes. |
| AvlTreeHeap.AVLTree.RefactorLeftRight | avlbst.h:228-231 | After a left-right double rotation: g gets NewRightFactor(b), p gets NewLeftFactor(b) and the pivot gets 0, where b is the pivot's former factor. |
| AvlTreeHeap.AVLTree.RefactorRightLeft | avlbst.h:250-253 | The mirror assignment after a right-left double rotation. |
| AvlTreeHeap.AVLTree.RotateRightSet | avlbst.h:321-322 | A right rotation at n, then n's and the risen left child's factors are set as given. |
| AvlTreeHeap.AVLTree.RotateLeftSet | avlbst.h:344-345 | A left rotation at n, then n's and the risen right child's factors are set as given. |
| AvlTreeHeap.AVLTree.RotateLeftRightSet | avlbst.h:330-336 | removeMe's left-right double rotation. The factor of left's right child is read between the rotations, and n, left and that child are set from it. |
| AvlTreeHeap.AVLTree.RotateRightLeftSet | avlbst.h:353-359 | removeMe's right-left double rotation, the mirror image of RotateLeftRightSet. |
| AvlTreeHeap.AVLTree.Remove | avlbst.h:259-306 | The tree stays valid, k no longer maps to anything, and every other key keeps its value. For an absent key the node set, shape, factors and entries are unchanged. For a present key exactly one owned node is given up. |
| AvlTreeHeap.AVLTree.InsertThenRemove | avlbst.h:143-306 | Inserting a key the tree lacks and removing it again gives back the same contents and the same in-order (key, value) sequence. |
| AvlTreeHeap.AVLTree.RemoveFound | avlbst.h:266-306 | remove once the node holding the key is found: the key leaves the map and exactly one node leaves the tree. |
| AvlTreeHeap.AVLTree.RemoveInner | avlbst.h:266-306 | A node with two children first exchanges entries with its in-order predecessor, and the predecessor's node is cut out. The key leaves the map and the tree stays valid. |
| AvlTreeHeap.AVLTree.SwapWithPredecessor | avlbst.h:266-269 | After the exchange, the node now holding the key has no right child. Leaving that node out keeps keys increasing and gives exactly the map without the key. |
| AvlTreeHeap.AVLTree.Predecessor | avlbst.h:267 | For a node with a left child, the loop walks to the rightmost node of the left subtree. That node has no right child and comes just before n in order. |
| AvlTreeHeap.AVLTree.NodeSwap | avlbst.h:431-438 | The two nodes' entries are exchanged in the entry map and nothing else changes: links and balances stay with the positions. |
| AvlTreeHeap.AVLTree.Splice | avlbst.h:270-305 | Cutting out a node with at most one child and running removeMe from its parent gives a valid tree that has lost exactly that node and holds exactly the remaining entries. |
| AvlTreeHeap.AVLTree.Unlink | avlbst.h:270-304 | After the cut, the subtree at the removed node's place is one level shorter than its parent's factor says, and diff is 1 for a left child and −1 for a right child. Keys still increase and the entries are the expected map. |
| AvlTreeHeap.AVLTree.Cut | avlbst.h:270-303 | Computes p, diff and the child, and relinks. The shape becomes the tree with the node replaced by its only subtree, and the in-order sequence is the old one without the node. Balances and entries are untouched. |
| AvlTreeHeap.AVLTree.CutMirrored | avlbst.h:287-304 | The child takes the node's place under the parent, or becomes the root. Its parent link follows, the node leaves the owned set, and the link map records exactly these changes. |
| AvlTreeHeap.AVLTree.ReplaceChild | avlbst.h:294-299 | The parent's link on the removed node's side now leads to the child, and the link map records it. |
| AvlTreeHeap.AVLTree.Reparent | avlbst.h:300-302 | The child's parent link now leads to the removed node's parent, and the link map records it. |
| AvlTreeHeap.AVLTree.RemoveMeValid | avlbst.h:305 | removeMe from the parent of a one-level-shorter subtree, on a tree whose entries are in place, gives a valid tree with the same entries. |
| AvlTreeHeap.AVLTree.RemoveMe | avlbst.h:308-367 | removeMe starts from a subtree that is one level shorter than its context's factors say. Afterwards every factor is correct and in −1..1, except nodes still waiting for their own update, and the in-order sequence is unchanged. |
| AvlTreeHeap.AVLTree.RemoveMeLean | avlbst.h:364-366 | A balanced node that loses a level on one side leans to the other side by one. The fixup stops there. |
| AvlTreeHeap.AVLTree.RemoveMeLevel | avlbst.h:365 | A node that leaned toward the shrunk side: removeMe first runs on from the parent with n stale, then n's factor is brought up to date. The contract: n ends with factor 0, every non-stale factor is correct and in −1..1, stale factors are kept, and the in-order sequence is unchanged. |
| AvlTreeHeap.AVLTree.Refresh | avlbst.h:365 | updateBalance(diff) after the recursion: exactly the stale node's factor becomes 0, which is its true difference, and no other factor changes. |
| AvlTreeHeap.AVLTree.RemoveMeLeftHeavy | avlbst.h:317-339 | balance + diff is −2: the case analysis on the left child's factor restores every factor and keeps the in-order sequence. |
| AvlTreeHeap.AVLTree.RemoveMeRotateRight | avlbst.h:320-324 | Left child leaning left: RotateRightSet sets n and left to 0 (its contract), then removeMe continues from the parent; RemovedRightSingle states that the rotated subtree is one level short. The contract here: every non-stale factor is correct, stale factors are kept, and the in-order sequence is unchanged. |
| AvlTreeHeap.AVLTree.RemoveMeRotateRightStop | avlbst.h:325-328 | Left child balanced: the shape becomes the right rotation at n, exactly n gets −1 and left gets 1, and no other factor changes. The rotated subtree has the height the subtree had before, so the fixup stops; every factor is correct. |
| AvlTreeHeap.AVLTree.RemoveMeRotateLeftRight | avlbst.h:329-338 | Left child leaning right: RotateLeftRightSet does the double rotation and the three-way assignment (its contract), then removeMe continues from the parent; RemovedRightDouble states the factor choice and the one-level shortfall. The contract here: every non-stale factor is correct, stale factors are kept, and the in-order sequence is unchanged. |
| AvlTreeHeap.AVLTree.RemoveMeRightHeavy | avlbst.h:340-362 | balance + diff is 2: the mirror case analysis on the right child's factor. |
| AvlTreeHeap.AVLTree.RemoveMeRotateLeft | avlbst.h:343-347 | Right child leaning right: RotateLeftSet sets n and right to 0, then removeMe continues from the parent; RemovedLeftSingle states the one-level shortfall. The contract here: every non-stale factor is correct, stale factors are kept, and the in-order sequence is unchanged. |
| AvlTreeHeap.AVLTree.RemoveMeRotateLeftStop | avlbst.h:348-351 | Right child balanced: the shape becomes the left rotation at n, exactly n gets 1 and right gets −1, and no other factor changes. The rotated subtree has the height the subtree had before, so the fixup stops; every factor is correct. |
| AvlTreeHeap.AVLTree.RemoveMeRotateRightLeft | avlbst.h:352-361 | Right child leaning left: RotateRightLeftSet does the double rotation and the three-way assignment, then removeMe continues from the parent; RemovedLeftDouble states the factor choice and the one-level shortfall. The contract here: every non-stale factor is correct, stale factors are kept, and the in-order sequence is unchanged. |
| AvlBalance.AttachAbsorbedLeft | avlbst.h:169-172 | A leaf attached on the left of a leaning parent: the parent set to 0 makes the whole tree AVL, with no height above changed. |
| AvlBalance.AttachGrewLeft | avlbst.h:173-175 | A leaf attached on the left of a balanced parent: with factor −1 the parent's subtree has grown by one toward the leaf. This is the precondition of insertMe. |
| AvlBalance.AttachAbsorbedRight | avlbst.h:188-191 | The mirror image of AttachAbsorbedLeft. |
| AvlBalance.AttachGrewRight | avlbst.h:192-194 | The mirror image of AttachGrewLeft, with factor 1. |
| AvlBalance.InsertAbsorbedLeft | avlbst.h:214-215 | g's left subtree grew while g leaned right: g at 0 makes the whole tree AVL. |
| AvlBalance.InsertGrewLeft | avlbst.h:214-216 | g's left subtree grew while g was balanced: g at −1 has grown toward p, and the fixup continues at g. |
| AvlBalance.InsertSingleLeft | avlbst.h:217-222 | Left-left case: after a right rotation at g with g and p at 0, the whole tree is AVL. The rotated subtree has its height from before the insertion. |
| AvlBalance.InsertDoubleLeft | avlbst.h:223-232 | Left-right case: after the double rotation with the factors set from the pivot's former factor, the whole tree is AVL. |
| AvlBalance.InsertAbsorbedRight | avlbst.h:236-237 | The mirror image of InsertAbsorbedLeft. |
| AvlBalance.InsertGrewRight | avlbst.h:236-238 | The mirror image of InsertGrewLeft. |
| AvlBalance.InsertSingleRight | avlbst.h:239-244 | The mirror image of InsertSingleLeft. |
| AvlBalance.InsertDoubleRight | avlbst.h:245-254 | The mirror image of InsertDoubleLeft. |
| AvlBalance.SpliceShrunk | avlbst.h:280-303 | Replacing a node that has at most one child by that child leaves a subtree one level shorter than its context expects. |
| AvlBalance.RemovedLeftLeans | avlbst.h:364 | A balanced node's left subtree shrank: with factor 1 the tree is AVL and no height above changes. |
| AvlBalance.RemovedLeftLevels | avlbst.h:365 | A node leaning left lost a level on the left: it becomes balanced and its own subtree is one level shorter. |
| AvlBalance.RemovedLeftSingle | avlbst.h:343-347 | A node leaning right lost a level on the left, with its right child leaning right. One left rotation with both at 0 restores AVL, one level lower. |
| AvlBalance.RemovedLeftSingleStop | avlbst.h:348-351 | The same with the right child balanced: one left rotation with factors 1 and −1 restores AVL, and the rotated subtree has the height of the unrotated one. |
| AvlBalance.RemovedLeftDouble | avlbst.h:352-361 | The same with the right child leaning left: the right-left double rotation with the three-way assignment restores AVL, one level lower. |
| AvlBalance.RemovedLevels | avlbst.h:365 | RemovedLeftLevels or RemovedRightLevels, depending on the side that shrank: the shortfall moves up to the parent. |
| AvlBalance.RemovedRightLeans | avlbst.h:366 | The mirror image of RemovedLeftLeans: factor −1. |
| AvlBalance.RemovedRightLevels | avlbst.h:365 | The mirror image of RemovedLeftLevels. |
| AvlBalance.RemovedRightSingle | avlbst.h:320-324 | The mirror image of RemovedLeftSingle. |
| AvlBalance.RemovedRightSingleStop | avlbst.h:325-328 | The mirror image of RemovedLeftSingleStop: factors −1 and 1, the height is kept. |
| AvlBalance.RemovedRightDouble | avlbst.h:329-338 | The mirror image of RemovedLeftDouble. |
| AvlShape.RotLShape | avlbst.h:369-398 | A left rotation keeps the node set, the in-order sequence and distinctness. |
| AvlShape.RotRShape | avlbst.h:400-429 | A right rotation keeps the node set, the in-order sequence and distinctness. |
| AvlShape.RotLPlug | avlbst.h:369-398 | A left rotation inside a tree keeps the node set and in-order sequence of the whole tree. It changes the root only when it happens at the root. |
| AvlShape.RotRPlug | avlbst.h:400-429 | A right rotation inside a tree keeps the node set and in-order sequence of the whole tree. It changes the root only when it happens at the root. |
| AvlShape.RotLLinked | avlbst.h:369-398 | After a left rotation, the updated link map describes the rotated tree, parent links included. |
| AvlShape.RotRLinked | avlbst.h:400-429 | After a right rotation, the updated link map describes the rotated tree, parent links included. |
| AvlShape.RotLState | avlbst.h:369-398 | A left rotation turns the link map of a well-linked tree into that of the rotated tree, relinking exactly curr, its child, the moved subtree and the parent. |
| AvlShape.RotRState | avlbst.h:400-429 | The mirror image of RotLState for a right rotation. |
| AvlShape.ChildSide | avlbst.h:270-279 | A node's links lead to its children and its parent, and its parent's link on the side of the node leads back to it. This is why diff is 1 exactly for a left child. |
| AvlShape.SpliceLinked | avlbst.h:287-303 | Cutting out a node with at most one child leaves a well-linked tree of the other nodes. |
| AvlShape.SpliceFacts | avlbst.h:270-303 | Cutting out a node with at most one child has these effects. The parent's link on the node's side leads to it. The child is a different node from the parent. The tree loses exactly that node. The relinked map describes the remaining tree. The child becomes root exactly when the node was root. The in-order sequence drops just that node. |
| AvlShape.RightmostFacts | avlbst.h:267 | The rightmost node of a subtree has no right child, is a node of that subtree, and is its last node in order. |
| AvlShape.BalOKRefresh | avlbst.h:365 | A node that was waiting for its update and is truly balanced may have its factor set to 0. |
| AvlOrder.IncreasingSorted | avlbst.h:163-201 | Keys strictly increasing along the nodes is the same as the entries being sorted by key. |
| AvlOrder.IncreasingOrdered | avlbst.h:163-201 | Increasing in-order keys make a search tree: every key in a left subtree is below the node's and every key in a right subtree above it. |
| AvlOrder.FitsOrder | avlbst.h:163-201 | Where the descent for k stops, every node before the hole has a smaller key and every node after it a larger one. |
| AvlOrder.AbsentKey | avlbst.h:262-265 | A search that ends in an empty place where k fits proves k absent from the map. |
| AvlOrder.PresentKey | avlbst.h:146-150 | The key of a node of the tree maps to that node's value. |
| AvlOrder.UpdateValue | avlbst.h:146-150 | Giving one node a new value keeps keys increasing and changes the map at that key only. |
| AvlOrder.InsertLeaf | avlbst.h:164-201 | A new node in the empty place where its key fits keeps keys increasing and adds exactly that key and value to the map. |
| AvlOrder.RemoveEntry | avlbst.h:287-304 | Taking one node out of an increasing sequence keeps it increasing and removes exactly its key from the map. |
| AvlOrder.RemoveSwapped | avlbst.h:266-269 | With adjacent nodes m and n exchanging entries, taking m out keeps keys increasing and removes exactly n's former key. |
| AvlOrder.RemoveAt | avlbst.h:270-304 | Leaving out the root of a subtree keeps keys increasing and drops exactly that node's key from the map. |
| AvlOrder.RemoveAtPredecessor | avlbst.h:266-304 | After n exchanges entries with its in-order predecessor, leaving the predecessor's node out keeps keys increasing and drops exactly n's key. |
| EqualPaths.GetHeight | equal-paths.cpp:12-31 | The height returned is the tree's height whatever the flag. The flag comes out true exactly when it went in true and no two-child node has subtrees of different heights. |
| EqualPaths.EqualPaths | equal-paths.cpp:33-38 | equalPaths is true exactly when no node with two children has subtrees of different heights. |
| EqualPaths.EmptyTree | equal-paths.cpp:14-16 | An absent tree has height 0 and leaves the flag as it was; equalPaths of it is true. |
| EqualPaths.FlagMonotone | equal-paths.cpp:12-31 | A flag that goes in false comes out false: the flag is only ever cleared. The height does not depend on the flag. |
| EqualPaths.OneChild | equal-paths.cpp:19-24 | A node with exactly one child is one higher than that child and returns the flag as the child left it. |
| EqualPaths.TwoChildren | equal-paths.cpp:25-30 | A node with two children is one higher than the higher child. It clears the flag when their heights differ, and otherwise keeps the flag its children leave. |
| EqualPaths.PathsBelowHeight | equal-paths.cpp:17-30 | Every root-to-leaf path of a non-empty tree has between 1 and height nodes, and some path has exactly height nodes. |
| EqualPaths.EvenPaths | equal-paths.cpp:12-31 | In a tree the check passes, every root-to-leaf path has exactly height nodes. |
| EqualPaths.PathsEven | equal-paths.cpp:12-31 | A tree whose root-to-leaf paths all have the same number of nodes passes the check. |
| EqualPaths.EqualPathsMeaning | equal-paths.cpp:12-38 | equalPaths is true if and only if all root-to-leaf paths have the same number of nodes. The common number is then the height getHeight returns. |
| EqualPaths.LeftChainEqual | equal-paths.cpp:19-24 | A left-only chain of any length passes the check, and its height is its length. |

## Left out

- The base class `BinarySearchTree` and its `Node` (bst.h) are not part of this model.
  - Its `internalFind` is modelled as the search loop `AvlTreeHeap.AVLTree.Find`, and `predecessor` as `AvlTreeHeap.AVLTree.Predecessor`.
  - The `getKey`, `setLeft`, `setRight` and `setParent` accessors are plain field reads and writes.
  - Its iterators, `print`, `clear` and the destructor are not modelled.
  - The empty tree it constructs is `AvlTreeHeap.AVLTree.constructor`.
- AvlTreeHeap.AVLTree.NodeSwap: the base `nodeSwap` exchanges the two nodes' positions; the model exchanges their keys and values instead.
  - Together with the balance exchange at avlbst.h:435-437, the result seen from the tree is the same: the same entries sit at the same positions with the same balances.
  - `remove` then cuts out the predecessor's node object rather than the original one.
  - Pointer identity of entries, which callers holding node pointers could observe, is therefore not modelled.
- AvlNode.Node.SwapEntry: models the same content swap, not the positional swap.
- Memory management: `new` is object allocation. `delete` (avlbst.h:304) removes the node from the owned set `Repr`; the freed object is not modelled.
- Keys are `int`, compared with `<`. The source is a template over any key type with `operator<`. Values are a type parameter.
- Balances are unbounded `int`s. The source's `int8_t` cannot overflow here: `Valid` keeps every stored factor in −1..1, and the fixups compute only −2..2.
- The uninitialised `diff` when the removed node is the root (avlbst.h:271-279) is set to 0. This is unobservable, because `removeMe` returns at once on a null node (avlbst.h:310). The same holds for `nextval` when there is no parent (avlbst.h:312-313): the model passes a value that is never used.
- The `static_cast`s, the virtual accessor overrides (avlbst.h:98-120), the unused `KeyError` struct and the include scaffolding are C++ typing and build plumbing with no behaviour.
- The worst-case height bound of an AVL tree (about 1.44 log2 n) is a consequence of the balance invariant that the code neither states nor checks. It is not proved.
- EqualPaths: the node type of equal-paths.h is not part of this model. Its key is carried in the datatype but never read, as in the source. The tree is an immutable value, so `equalPaths` leaving the tree unchanged holds by construction.
