# Containers and serializer of zhwkre

This project models the container library that the repository bundles under `zhwkre/` and the
serializer built on it, and proves what they keep and where they break their promises.

* **2-3 tree** (`containers/btree.c`). `TwoThree`, `TwoThreeErase` and `TwoThreeRuns` describe insertion
  with its delayed splits and deletion with its delayed underflow as functions on trees, and prove
  what they do to shape, order and contents; `WaysDown` says what search, insertion and deletion answer in a
  tree that has lost its order, and which nodes they touch. `BTreeNode`, `BTreeInsert`, `BTreeErase`, `BTreeIterator`
  and `BTree` are the linked nodes that the source overwrites in place; their insertions and deletions,
  up to the methods of the tree, are proved to compute the functions that describe them.
* **Threaded search tree and sets** (`containers/AVLTree.c`, `containers/set.c`). `AvlShape` and `AvlDeletion`
  describe rotations, insertion and deletion on a shape that remembers which node sits where; `AvlTree` performs
  them on linked nodes with their heights and their `prev`/`next` thread; `Balance` says when
  one operation keeps the balance; `AvlRuns`, `AscendingInsertion` and `LostBalance` are about runs;
  `SetAlgebra` is the set operations.
* **Serializer** (`serialization/serialization.c`). `Records` describes nested lists, their levels and
  records, `Encoding` the bytes they become; `ByteStrings` is the growing buffer of `bss/bss.c`; `Levels` is what goes into the buffer of each
  level and when it fits; `Serializer` is the recursive writer and the bottom-up reader with its path-keyed maps.
* **Hash map, list, sort, strings** (`HashMap`, `LinkedList`, `BubbleSort`, `Strings`).

The comparator is a parameter that obeys the three-way laws (`Ordering.ThreeWay`); keys that compare
as equal need not be identical. `Strings.StringsAreOrdered` gives a concrete one. Sizes are 32-bit
counters that wrap around (`Words.Wrap`).

A ghost *shape* says which node sits where. `Check` (2-3 tree) and `Linked` (search tree) say that the
fields in memory agree with it; the methods change the fields and give back the new shape.

## Where code and intent part

* **Insertion into the 2-3 tree** is modelled as it is written. It has two slips. A full leaf takes a
  pair without comparing keys (`btree.c:150-155`), so a key that it holds is accepted again. And when
  child 0 of a one-pair node has split, the halves are stored as if child 1 had (`btree.c:187-191`), which
  puts the larger half first. `TwoThree.InsertExactly` proves that insertion keeps its promise exactly
  when the way down for the key meets neither slip (`TwoThree.Hazard`, which can be checked before the
  call); `TwoThreeRuns.DuplicateIsAccepted` and `TwoThreeRuns.OrderIsLost` are concrete runs that meet
  them. The flag `fix` of the insertion functions corrects both slips, and `TwoThree.CorrectedInsert`
  proves the promise for the corrected code on all inputs. Ascending insertion, which is what the test
  does, never meets a slip (`TwoThreeRuns.AscendingInsertionIsRight`). The order is therefore not part
  of `BTree.Tree.Valid`: iteration does not need it, and search, insertion and deletion say what they
  answer in any tree (`WaysDown`) and more in an ordered one. After a slip iteration still gives pairs that
  search no longer finds (`TwoThreeRuns.AfterOrderIsLost`). Even with slips every run keeps the 2-3 shape and loses no pair
  (`TwoThreeRuns.EveryRunKeepsShape`).
* **The search tree is not balanced in general.** The choice of rotation looks at the grandchild
  (`AVLTree.c:177`, `188`), and the two walks of a deletion repair the side that cannot have grown
  (`AVLTree.c:325`, `340`). `LostBalance.BalanceIsLost` and `LostBalance.BalanceIsLostByDeletion` are runs
  that end with a factor of -2. For every balanced tree `Balance.InsertBalancesExactly` and
  `Balance.DeleteBalancesExactly` give the exact condition under which the operation leaves a
  balanced tree; both conditions (`Judge`, `SafeDelete`) can be read off the tree before the call.
  An insertion may also go out of balance and be made good by the rotation one level up, which
  `Judge` takes into account. `AvlRuns.RunsBalanceExactly` carries both to whole runs, and
  `AscendingInsertion.AscendingInsertionBalances` proves balance for ascending insertion. Order,
  heights and thread are kept by every run all the same.
* **An iterator of another tree** deletes an equal element only if that one sits in a leaf. Otherwise the source
  exchanges data with a neighbour (`AVLTree.c:328`, `343`) before it frees the neighbour's node, so the tree loses
  the neighbour's element (`AvlDeletion.ForeignHitsExactly`). `AvlTree.Tree.Erase` says what happens for any iterator.
* **The buffers of the serializer** double in 32 bits (`bss.c:29`). A buffer that reaches 2^31 bytes is no longer
  enlarged, and unless its memory happens to be large enough the append goes past it. `ByteStrings.FitsExactly`
  gives the exact condition for one buffer, `Serializer.ListSerialize` and `Serializer.RoundTrip` for a whole list:
  only the final histories of the levels matter, because a buffer of a nested list that is too large never fits
  into its parent's either.
* **Equality of sets** compares 32-bit counts (`set.c:79`), which decides equality exactly for second sets of
  fewer than 2^32 elements (`SetAlgebra.CountingDecidesExactly`).
* **The bubble sort** exchanges neighbours when the comparator is not zero (`bubble_sort.c:10`), while the
  comment at its declaration (`alg.h:6`) speaks of answers greater than zero. It stops on every list exactly
  when no two elements are exchanged both ways round (`BubbleSort.StopsExactly`), so a three-way
  comparator makes it run for ever (`BubbleSort.ThreeWayDoesNotStop`).

## Model

| member | source | states |
|---|---|---|
| `TwoThree.SplitUpHalves` | zhwkre/containers/btree.c:27-74 | Splitting an overfull node of height h, wherever the parked pair stands, gives two one-pair nodes of height h and a promoted pair whose concatenation is the old sequence of pairs. |
| `TwoThree.RouteSeparates` | zhwkre/containers/btree.c:84-132 | In an ordered node, the comparison either finds the key or leads to the one child that can hold it: everything left of that child is below the key and everything right of it above. |
| `TwoThree.InsertKeepsShape` | zhwkre/containers/btree.c:140-230 | As written, insertion below a proper tree gives back the tree refused, a proper tree of the same height, or (status 1) exactly one overfull node at the top. |
| `TwoThree.InsertExactly` | zhwkre/containers/btree.c:140-269 | On every proper tree, insertion as written refuses an equal key and otherwise adds exactly the new pair to a proper tree, if and only if the way down meets neither slip. |
| `TwoThree.CorrectedInsert` | zhwkre/containers/btree.c:140-269 | With both slips corrected insertion keeps that promise on every proper tree. |
| `TwoThree.NoHazardAgrees` | zhwkre/containers/btree.c:140-230 | Away from the slips the code as written and the corrected code do the same. |
| `TwoThree.HazardSpoils` | zhwkre/containers/btree.c:150-191 | On a way that meets a slip a key that is there is accepted again, or the order is lost. |
| `TwoThree.HalvesTraded` | zhwkre/containers/btree.c:187-191 | Where the second slip puts the halves of child 0 of a one-pair node, in any tree: the right half, the node's own pair, the left half. |
| `WaysDown.SearchFollowsComparisons` | zhwkre/containers/btree.c:91-129 | At any node of any tree, in order or not: a key below the first pair is found exactly if it is found below child 0, whatever the second pair is; the second pair is looked at only by keys above the first; and so on for the other children. |
| `WaysDown.SearchFindsLed` | zhwkre/containers/btree.c:84-132 | In any tree search finds exactly the pair that the comparisons lead to; they lead to one pair at most, and its key is equal. |
| `WaysDown.InsertionRefusesExactly` | zhwkre/containers/btree.c:140-230 | In any proper tree, in order or not, insertion refuses a pair if and only if the comparisons lead its key to a pair that is not in a full leaf. |
| `WaysDown.LandsWhereLed` | zhwkre/containers/btree.c:156-230 | In any tree, a pair whose way ends in a leaf with a free slot goes into the gap that the comparisons lead to, and everything else keeps its place. |
| `WaysDown.InsertionBelow` | zhwkre/containers/btree.c:174-228 | At any inner node: it changes only if the child has split, and then takes the halves into its free slot, those of child 0 the wrong way round, or parks the promoted pair and the left half. |
| `WaysDown.DeletionTakesLed` | zhwkre/containers/btree.c:403-473 | In any proper tree, in order or not, deletion refuses if and only if the comparisons lead to no pair, and otherwise takes out exactly the pair that they lead to. |
| `TwoThreeErase.RepairAsksRightFirst` | zhwkre/containers/btree.c:420-471 | A child without pairs gets one from the right sibling if that has two, with every other child untouched; only otherwise from the left one if that has two; only otherwise it is joined with its left sibling, child 0 with its right one. |
| `WaysDown.DeletionBelow` | zhwkre/containers/btree.c:424-472 | At every node of the way a child that has lost its last pair is mended in that order, and any other child just takes its place. |
| `WaysDown.DeletionHere` | zhwkre/containers/btree.c:408-453 | A pair of an inner node gives way to the first pair of the child to its right, and that child, if it lost its last pair, is mended in that order; a leaf drops the pair. |
| `WaysDown.MinimumAtNode` | zhwkre/containers/btree.c:359-390 | The same for every node of the walk to the minimum. |
| `TwoThreeErase.RepairShape` | zhwkre/containers/btree.c:272-356 | A child without pairs is always repaired: by the rotations and the merge its parent becomes a proper node of the same height or itself a node without pairs over one subtree. |
| `TwoThreeErase.RepairFlat` | zhwkre/containers/btree.c:272-356 | The repair moves pairs between nodes without changing their sequence. |
| `TwoThreeErase.EraseMinRemoves` | zhwkre/containers/btree.c:359-390 | Erasing the minimum takes out the first pair and nothing else; status 1 means no pairs and one subtree. |
| `TwoThreeErase.EraseHereInner` | zhwkre/containers/btree.c:408-424 | Erasing a pair of an inner node leaves the pairs before it and after it, though its successor moves up. |
| `TwoThreeErase.EraseIsRight` | zhwkre/containers/btree.c:403-473 | For every proper ordered subtree: status -1 exactly when the key is absent, the height is kept, the sequence is the old one without that key, and status 1 means exactly no pairs over one subtree. |
| `TwoThreeErase.EraseRootIsRight` | zhwkre/containers/btree.c:475-491 | Deletion from a whole proper tree gives a proper tree that holds everything but the pair with that key. |
| `TwoThreeRuns.CleanRunsAreRight` | zhwkre/containers/btree.c:140-491 | Every run of insertions and deletions that meets no slip ends in a proper tree with exactly the intended pairs. |
| `TwoThreeRuns.SlipsAreSeen` | zhwkre/containers/btree.c:140-269 | The first insertion of a run that meets a slip breaks the promise. |
| `TwoThreeRuns.AscendingInsertionIsRight` | zhwkre/tests/btree_test.c:19-27 | Ascending insertion of any length never meets a slip and leaves exactly that sequence in a proper tree. |
| `TwoThreeRuns.DuplicateIsAccepted` | zhwkre/containers/btree.c:150-155 | Inserting 1, 2 and again 1 succeeds and leaves three pairs. |
| `TwoThreeRuns.OrderIsLost` | zhwkre/containers/btree.c:187-191 | Inserting 5, 3, 7, 4 and 1 leaves the order 4, 5, 1, 3, 7. |
| `TwoThreeRuns.AfterOrderIsLost` | zhwkre/containers/btree.c:91-129 | After that run search finds exactly 4, 5 and 7, and a second 3 is accepted. |
| `TwoThreeRuns.RightSiblingGives` | zhwkre/containers/btree.c:463 | After 10, 20, 30, 40, 50, 5, 60 erasing 30 leaves 20 and 50 over 5, 10 and 40 and 60, and a second 5 is accepted. |
| `TwoThreeRuns.InsertConserves` | zhwkre/containers/btree.c:232-269 | Insertion as written, slips included, keeps the shape and adds exactly its pair to the pairs of the tree when it is not refused. |
| `TwoThreeErase.EraseTakesOne` | zhwkre/containers/btree.c:403-473 | Deletion from a proper tree that need not be in order keeps the height; it refuses exactly if search finds nothing, and otherwise takes out exactly the pair that search finds. |
| `TwoThreeRuns.EveryRunKeepsShape` | zhwkre/containers/btree.c:140-491 | Every run, slips included, keeps the 2-3 shape; every operation adds its pair, takes out one with an equal key, or is refused. |
| `TwoThree.SearchIsComplete` | zhwkre/containers/btree.c:84-132 | In an ordered tree the way down finds an equal key exactly when there is one. |
| `TwoThreeRuns.Capacity` | zhwkre/btree.h:33-41 | A 2-3 tree of height h holds at least 2^h - 1 pairs. |
| `TwoThreeRuns.HeightFitsTrack` | zhwkre/btree.h:33-41 | While the 32-bit size counts the pairs no way down has more than 32 steps, so 100 track entries suffice. |
| `TwoThreeRuns.FewPairsFitTrack` | zhwkre/btree.h:33-41 | With fewer than 2^(n+1) - 1 pairs no way down has more than n steps. |
| `BTreeNode.SplitUp` | zhwkre/containers/btree.c:27-74 | The field updates turn an overfull node into the two halves of the function, sharing no node. |
| `BTreeInsert.RecursiveInsert` | zhwkre/containers/btree.c:140-230 | The linked nodes afterwards are the tree that the insertion function gives; a pair is refused, without any change, if and only if the comparisons lead to a pair that is not in a full leaf; only new nodes are added. |
| `BTreeErase.RotateLeft` | zhwkre/containers/btree.c:272-291 | Refuses exactly when the right sibling has no pair to spare, else the nodes are the rotated tree. |
| `BTreeErase.RotateRight` | zhwkre/containers/btree.c:292-308 | The same with the left sibling. |
| `BTreeErase.Merge` | zhwkre/containers/btree.c:310-356 | The child, the pair between and the sibling become one node; the result and its status are the merged tree's. |
| `BTreeErase.Repair` | zhwkre/containers/btree.c:419-471 | The linked nodes afterwards are the mended tree: the right sibling gives if it can, only otherwise the left one, only otherwise two nodes become one. |
| `BTreeErase.RecursiveEraseMin` | zhwkre/containers/btree.c:359-390 | The linked nodes afterwards are the tree without its first pair. |
| `BTreeErase.GetMin` | zhwkre/containers/btree.c:392-401 | Finds the first pair of a subtree, or reports that there is none. |
| `BTreeErase.RecursiveErase` | zhwkre/containers/btree.c:403-473 | The linked nodes afterwards are the tree that the deletion function gives, which lacks exactly the pair that the comparisons lead to; no node is added. |
| `BTreeIterator.StandingUnique` | zhwkre/btree.h:27-41 | A place in the tree has exactly one iterator: node, index and track are determined by the number of the pair. |
| `BTreeIterator.StandingGives` | zhwkre/containers/btree.c:497-499 | An iterator with a true track gives the pair with its number. |
| `BTreeIterator.RecursiveSearch` | zhwkre/containers/btree.c:84-132 | Status 0 exactly when the way down meets the key, with a node, an index and a track every step of which is the one that the comparisons ask for; otherwise the iterator is cleared. The track is never overrun. |
| `BTreeIterator.LedAlongTrack` | zhwkre/containers/btree.c:84-132 | In any tree the pair at an iterator is the one that a key leads to if and only if the comparisons with the key go along the iterator's track and stop at its pair. |
| `BTreeIterator.Begin` | zhwkre/containers/btree.c:501-514 | Stands on pair 0, or is invalid on the empty tree. |
| `BTreeIterator.End` | zhwkre/containers/btree.c:516-530 | Stands on the last pair, or is invalid on the empty tree. |
| `BTreeIterator.Next` | zhwkre/containers/btree.c:570-607 | From pair i to pair i + 1 with a true track, or invalid after the last one. |
| `BTreeIterator.Prev` | zhwkre/containers/btree.c:532-568 | From pair i to pair i - 1 with a true track, or invalid before the first one. |
| `BTree.Tree.Insert` | zhwkre/containers/btree.c:232-269 | The tree afterwards is the one of the insertion function; in any tree the pair is refused if and only if the comparisons lead to a pair outside the full leaves; shape, links and size are kept always, and the promise about contents and order exactly when the way down meets no slip. |
| `BTree.Tree.Erase` | zhwkre/containers/btree.c:475-491 | The tree afterwards is the one of the deletion function; in an ordered tree exactly the pair the iterator stands on goes, in any other exactly the one that the comparisons with its key lead to, or none; shape, links and size are kept. |
| `BTree.Tree.PtrAt` | zhwkre/containers/btree.c:134-137 | Stands on the pair that the comparisons lead to, or says that they lead to none, whatever the order; in an ordered tree it misses no equal key. |
| `BTree.Tree.Ascend` | zhwkre/tests/btree_test.c:52-64 | The loop over begin, isvalid and next visits every pair exactly once, in order, and stops. |
| `BTree.Tree.Descend` | zhwkre/tests/btree_test.c:65-77 | The loop over end, isvalid and prev visits them in the opposite order. |
| `BTree.Tree.NextThenPrev` | zhwkre/containers/btree.c:532-607 | Going on and back gives the same iterator, track included. |
| `BTree.Tree.PrevThenNext` | zhwkre/containers/btree.c:532-607 | Going back and on gives the same iterator, track included. |
| `AvlShape.RotateLeftRearranges` | zhwkre/containers/AVLTree.c:60-90 | The left rotation, "merge" case included, keeps elements and nodes in order. |
| `AvlShape.RotateRightRearranges` | zhwkre/containers/AVLTree.c:92-121 | The right rotation keeps elements and nodes in order. |
| `AvlShape.LeftBalanceRearranges` | zhwkre/containers/AVLTree.c:174-184 | Whichever rotation is chosen, elements and nodes keep their order. |
| `AvlShape.RightBalanceRearranges` | zhwkre/containers/AVLTree.c:186-195 | The mirror image. |
| `AvlShape.RightBalanceLifts` | zhwkre/containers/AVLTree.c:186-195 | Which rotation a lean to the right of two or more gets and what it makes of the tree, however unbalanced its parts are. |
| `AvlShape.LeftBalanceLifts` | zhwkre/containers/AVLTree.c:174-184 | The same for leans to the left. |
| `AvlShape.InsertionAtNode` | zhwkre/containers/AVLTree.c:198-276 | Insertion repairs every node on its way back on the side it came from, in any tree. |
| `AvlShape.FindIsComplete` | zhwkre/containers/AVLTree.c:38-56 | The search finds a node exactly when an equal element is there. |
| `AvlShape.InsertKeepsOrder` | zhwkre/containers/AVLTree.c:198-276 | Insertion of an absent element, through all rotations, puts it in its place in the ascending sequence and adds no node but its own. |
| `AvlShape.GapIsSlot` | zhwkre/containers/AVLTree.c:198-276 | In an ordered tree the gap that the way down leads to is the place that the order gives the element. |
| `AvlShape.InsertFillsGap` | zhwkre/containers/AVLTree.c:151-276 | In any tree, ordered or not and through all rotations, the new element and the new node go into one gap of the in-order sequences, the one where the thread insertion puts the node, and everything else keeps its order. |
| `AvlDeletion.DeleteRemoves` | zhwkre/containers/AVLTree.c:320-406 | In any tree deletion takes one element out of the sequence, though it frees a neighbour's node: the found element, or with an iterator of another tree the element of the node that goes. |
| `AvlDeletion.DeleteFrees` | zhwkre/containers/AVLTree.c:320-406 | The node that goes is one position of the sequence of nodes, the one the thread removal takes out, whosever the iterator. |
| `AvlDeletion.WalksAtNode` | zhwkre/containers/AVLTree.c:320-349 | The walks to the neighbour repair every node on their way back on the side they came from, in any tree. |
| `AvlDeletion.DeletionAtNode` | zhwkre/containers/AVLTree.c:379-405 | Deletion of an element below a child repairs the other side of the node, in any tree. |
| `AvlDeletion.DeletionAtTop` | zhwkre/containers/AVLTree.c:351-376 | A found node gives way to the first element on its right if the right side is higher, else to the last one on its left; a leaf goes itself. |
| `AvlDeletion.ForeignHitsExactly` | zhwkre/containers/AVLTree.c:320-376 | With an iterator of another tree the equal element goes if and only if the node found has height 1; otherwise a neighbour's element is lost to the foreign node and the equal one stays. |
| `AvlRuns.RunsAreRight` | zhwkre/containers/AVLTree.c:198-416 | Every run of insertions and deletions, however unbalanced the tree becomes, leaves a search tree without repeated nodes and with exactly the intended elements. |
| `AvlTree.SimpleLeftRotate` | zhwkre/containers/AVLTree.c:60-90 | The pointer and height updates give the rotated shape with exact heights. |
| `AvlTree.SimpleRightRotate` | zhwkre/containers/AVLTree.c:92-121 | The same to the right. |
| `AvlTree.LeftRightRotate` | zhwkre/containers/AVLTree.c:124-136 | The double rotation gives the doubly rotated shape with exact heights. |
| `AvlTree.RightLeftRotate` | zhwkre/containers/AVLTree.c:138-149 | The same the other way round. |
| `AvlTree.ListInsertLeft` | zhwkre/containers/AVLTree.c:151-158 | The thread afterwards runs through the new node just before its parent. |
| `AvlTree.ListInsertRight` | zhwkre/containers/AVLTree.c:160-167 | The thread afterwards runs through the new node just after its parent. |
| `AvlTree.ListRemove` | zhwkre/containers/AVLTree.c:169-172 | The thread afterwards runs through all nodes but the removed one. |
| `AvlTree.RecursiveInsert` | zhwkre/containers/AVLTree.c:198-276 | Tree, heights and thread change together: the nodes are the inserted shape, every height is exact, the thread is the in-order sequence. |
| `AvlTree.DeleteLeftMax` | zhwkre/containers/AVLTree.c:320-334 | The largest element moves to the erased node, its own node leaves tree and thread, and heights stay exact. |
| `AvlTree.DeleteRightMin` | zhwkre/containers/AVLTree.c:335-349 | The mirror image with the smallest element. |
| `AvlTree.RecursiveDelete` | zhwkre/containers/AVLTree.c:351-406 | Tree, heights and thread change together: the nodes are the shape after deletion, the thread is its in-order sequence. |
| `AvlTree.Tree.Insert` | zhwkre/containers/AVLTree.c:278-308 | The shape afterwards is the one of the insertion function with a new node; order, exact heights, thread and size are kept; an equal element is refused without any change. |
| `AvlTree.Tree.Erase` | zhwkre/containers/AVLTree.c:408-416 | For any iterator: -1 without any change when the 32-bit size reads zero or no equal element is there; otherwise the shape is the one of the deletion function and one element goes, the one the iterator stands on if it is a node of this tree; order, exact heights, thread and size are kept. |
| `AvlTree.Tree.PtrAt` | zhwkre/containers/AVLTree.c:38-56 | The loop finds a node with an equal element exactly when there is one. |
| `AvlTree.Tree.Begin` | zhwkre/containers/AVLTree.c:432-438 | The leftmost node is the first of the thread. |
| `AvlTree.Tree.End` | zhwkre/containers/AVLTree.c:440-446 | The rightmost node is the last of the thread. |
| `AvlTree.Tree.Step` | zhwkre/containers/AVLTree.c:452-467 | A node's data and neighbours are those of its position in the ascending sequence. |
| `AvlTree.Tree.Destructor` | zhwkre/containers/AVLTree.c:418-430 | The walk from the leftmost node along `next` reaches every node exactly once and stops; the descriptor is cleared, comparator included. |
| `AscendingInsertion.AscendingInsertionBalances` | zhwkre/tests/avltree_test.c:19-27 | Ascending insertion of any length keeps every factor in {0, 1}, left subtrees on the right spine perfect, and at least 2^(height-1) elements. |
| `Balance.RightRepairExactly` | zhwkre/containers/AVLTree.c:186-195 | Which trees over balanced subtrees that lean to the right by two or more are balanced by one repair: if and only if they lean by two and the chosen rotation fits the child's lean, or by three and it happens to move three levels. |
| `Balance.LeftRepairExactly` | zhwkre/containers/AVLTree.c:174-184 | The same for trees that lean to the left. |
| `Balance.InsertBalancesExactly` | zhwkre/containers/AVLTree.c:198-276 | Insertion of any absent element into any balanced tree gives a balanced tree if and only if the condition read off the way down before the call holds. |
| `Balance.InsertionIsJudged` | zhwkre/containers/AVLTree.c:198-276 | For each of the four outcomes of that condition, what the tree looks like afterwards and whether it is higher; what is out of balance stays so, but for the one lean that the rotation above makes good. |
| `Balance.DeleteMaxBalancesExactly` | zhwkre/containers/AVLTree.c:320-334 | The walk that takes out the largest element keeps a balanced tree balanced if and only if no node on it leans away from a subtree that gets lower. |
| `Balance.DeleteMinBalancesExactly` | zhwkre/containers/AVLTree.c:335-349 | The mirror image for the smallest element. |
| `Balance.MaxWalkRepairsExactly` | zhwkre/containers/AVLTree.c:320-326 | At a node that need not have been balanced, over sides that are balanced once the element is gone, the walk to the maximum leaves balance if and only if the node leans by at most one, or to the right by two or three in a way that one repair makes good. |
| `Balance.MinWalkRepairsExactly` | zhwkre/containers/AVLTree.c:335-341 | The mirror image. |
| `Balance.DeleteBalancesExactly` | zhwkre/containers/AVLTree.c:351-406 | Deletion from any balanced tree gives a balanced tree if and only if the condition read off the way down before the call holds; then its height is known too. |
| `AvlRuns.RunsBalanceExactly` | zhwkre/containers/AVLTree.c:198-416 | A run keeps every tree balanced if and only if each of its operations meets its condition. |
| `LostBalance.BalanceIsLost` | zhwkre/containers/AVLTree.c:186-195 | The insertion order 10, 5, 30, 20, 40, 25 ends with a factor of -2. |
| `LostBalance.BalanceIsLostByDeletion` | zhwkre/containers/AVLTree.c:320-326 | After 50, 30, 60, 20, 40, 70, 10 the tree is balanced, and erasing 50 leaves 30 with a factor of -2. |
| `SetAlgebra.Union` | zhwkre/containers/set.c:50-59 | A new valid set that has an element exactly when one of the two has it; of equal elements it holds the first set's copy. |
| `SetAlgebra.Intersect` | zhwkre/containers/set.c:60-68 | A new valid set that has an element exactly when both have it, with the first set's copies. |
| `SetAlgebra.Difference` | zhwkre/containers/set.c:69-77 | A new valid set that has an element exactly when the first has it and the second has not. |
| `SetAlgebra.IsEqual` | zhwkre/containers/set.c:78-86 | Decides equality as long as the second set fits its 32-bit size. |
| `SetAlgebra.IsSubset` | zhwkre/containers/set.c:87-94 | Decides inclusion. |
| `SetAlgebra.SubsetCardinality` | zhwkre/containers/set.c:78-86 | Inclusion bounds the size, and inclusion of equally many elements is equality. |
| `SetAlgebra.EqualityByCounting` | zhwkre/containers/set.c:78-86 | Equal 32-bit counts and inclusion are equality, in both directions. |
| `SetAlgebra.CountingDecidesExactly` | zhwkre/containers/set.c:78-86 | Counting and inclusion decide equality with a second set against every first set if and only if the second set has fewer than 2^32 elements. |
| `ByteStrings.ByteString.Append` | zhwkre/bss/bss.c:27-45 | The bytes are appended and the capacity is the larger of the old one and twice the new size in 32 bits, exactly when the new size lies within it; otherwise the source writes past its memory. |
| `ByteStrings.FitsExactly` | zhwkre/bss/bss.c:27-45 | A run of appends to a new buffer stays within its memory if and only if the bytes end up fewer than 2^31, or at most twice as many as they last were below that. |
| `Levels.HistoriesAreRows` | zhwkre/serialization/serialization.c:9-60 | The pieces that go into buffer k, whole sub-buffers among them, add up to the records of all items of depth k from left to right. |
| `Levels.FitsAllTheWay` | zhwkre/serialization/serialization.c:9-60 | If no buffer is overrun in the end, none was before, none of a nested list's own buffers was, and no path was. |
| `Levels.SmallLevelsHaveRoom` | zhwkre/serialization/serialization.c:9-60 | Levels of fewer than 2^31 bytes are never overrun. |
| `Levels.BigItemHasNoRoom` | zhwkre/serialization/serialization.c:26 | A list with an item of 2^31 bytes or more always overruns a buffer. |
| `Levels.PathsAreSmall` | zhwkre/serialization/serialization.c:38-40 | Where no buffer is overrun, all paths are shorter than 2^31 bytes, so the reader can put them together. |
| `Serializer.ListSerialize` | zhwkre/serialization/serialization.c:9-60 | No buffer is overrun if and only if every level ends below 2^31 bytes or at most twice as large as it last was below that; then there are as many buffers as levels of nesting, and buffer k holds, from left to right and for every item of depth k, the counters on the way to it, its size and its bytes, the numbers low byte first. |
| `Serializer.AppendLevels` | zhwkre/serialization/serialization.c:42-56 | A nested list's buffers are appended one level further down, each in one piece, and missing levels are taken over as they are; it succeeds if and only if none of them is overrun. |
| `Records.WordIsLittleEndian` | zhwkre/serialization/serialization.c:21-24 | Byte j of a written counter or size n is n / 256^j % 256. |
| `Encoding.RowOnWays` | zhwkre/serialization/serialization.c:16-21 | The path of every item is the counters that lead to it, one per level, each spelled in four bytes. |
| `Encoding.LevelIsEncoded` | zhwkre/serialization/serialization.c:17-58 | The buffer of a level byte by byte: for each of its items the path, the size and the bytes. |
| `Encoding.OneByteList` | zhwkre/serialization/serialization.c:17-27 | The list of the one-byte item "a" is written as 00 00 00 00 01 00 00 00 61. |
| `Encoding.DescriptorLayout` | zhwkre/listd.h:12-17 | A nested list's descriptor has the addresses of its first and last node at bytes 16 to 31 and its size, low byte first, at 32 to 35; those of an empty list are all zero. |
| `Encoding.DescriptorsBeginWithText` | zhwkre/containers/list.c:186-194 | Bytes count as a descriptor exactly if there are at least 40 of them and they begin with the text of the magic. |
| `Encoding.DepthByRows` | zhwkre/serialization/serialization.c:42-56 | There is a buffer below buffer k exactly if an item of depth k has a list. |
| `Records.RowBelow` | zhwkre/serialization/serialization.c:17-58 | The levels collected depth first are the levels in breadth. |
| `Records.RowDistinct` | zhwkre/serialization/serialization.c:16-21 | No two items of a level have the same path of counters. |
| `Records.FamilyOfPlace` | zhwkre/serialization/serialization.c:141-158 | Grouping a level's items by prefix gives every item of the level above its own list back, in order. |
| `Records.ReadBack` | zhwkre/serialization/serialization.c:100-139 | An item's bytes and the list that belongs to it give the item back; an empty nested list keeps its null links. |
| `Serializer.NotAtEnd` | zhwkre/serialization/serialization.c:91-92 | The cursor is at the end of the buffer exactly when all records have been read, so the test for inequality ends the loop. |
| `Serializer.TakeRecord` | zhwkre/serialization/serialization.c:93-107 | Takes prefix, counter and data of the next record and leaves the cursor before the following one. |
| `Serializer.ReadLevel` | zhwkre/serialization/serialization.c:91-162 | One buffer gives the families of its level by prefix, or at the top the list. |
| `Serializer.ListUnserialize` | zhwkre/serialization/serialization.c:85-173 | From the levels of any proper list, deepest first through path-keyed maps, the reader rebuilds that list. |
| `Serializer.RoundTrip` | zhwkre/serialization/serialization.c:62-187 | Serialize then unserialize is the identity on every proper nested list of any depth and shape, empty lists at any level included, if and only if every level buffer has room in the sense above. |
| `HashMap.Map.Insert` | zhwkre/containers/unordered_map.c:61-76 | The map afterwards is the old one with the key set; each key stays in its own chain once and `counts` is the map's size. |
| `HashMap.Map.Erase` | zhwkre/containers/unordered_map.c:78-93 | The map afterwards is the old one without the key; -1 exactly when it was absent. |
| `HashMap.Map.PtrAt` | zhwkre/containers/unordered_map.c:95-104 | Finds the entry exactly when the map has the key, and the entry holds the map's value. |
| `HashMap.Map.Clear` | zhwkre/containers/unordered_map.c:45-59 | The map afterwards is empty and all chains are. |
| `HashMap.PutKeeps` | zhwkre/containers/unordered_map.c:61-76 | Changing one chain changes the map at one key; the size grows exactly for a new key. |
| `HashMap.DropKeeps` | zhwkre/containers/unordered_map.c:78-93 | Taking an entry out of its chain removes exactly its key from the map. |
| `HashMap.OwnChainOnce` | zhwkre/containers/unordered_map.c:61-104 | An entry's key is in the map with its value, in its own chain only, and once. |
| `HashMap.Uhashf` | zhwkre/serialization/serialization.c:75-83 | The loop gives the sum of the bytes, each times 131 to the number of bytes from it to the end, modulo 2^32 and then modulo 131. |
| `HashMap.UnwrappedIsWeightedSum` | zhwkre/serialization/serialization.c:78-81 | What the loop would add up without wrap-around, in closed form. |
| `LinkedList.List.PushBack` | zhwkre/containers/list.c:31-65 | Appends; `prev` and `next` stay mirror images, `head`, `tail` and `size` stay right. |
| `LinkedList.List.PushFront` | zhwkre/containers/list.c:67-101 | Prepends, with the same invariant. |
| `LinkedList.List.PopBack` | zhwkre/containers/list.c:103-125 | Drops the last element, or reports the empty list. |
| `LinkedList.List.PopFront` | zhwkre/containers/list.c:127-149 | Drops the first element, or reports the empty list. |
| `LinkedList.List.SwapElem` | zhwkre/containers/list.c:151-159 | Exchanges two elements and moves no node. |
| `LinkedList.List.EraseElem` | zhwkre/containers/list.c:161-170 | Takes exactly that node's element out. |
| `LinkedList.List.Copy` | zhwkre/containers/list.c:196-202 | A new list of new nodes with the same elements; the old one is unchanged. |
| `LinkedList.List.Destructor` | zhwkre/containers/list.c:172-184 | Reaches every node exactly once and leaves the empty list. |
| `BubbleSort.Sort` | zhwkre/algorithm/bubble_sort.c:5-17 | Terminates for every comparator that never exchanges two elements both ways; with a strict weak order the list becomes the stable sort of what it was. |
| `BubbleSort.StopsExactly` | zhwkre/algorithm/bubble_sort.c:5-17 | The sort stops on every list if and only if no two elements are exchanged both ways round. |
| `BubbleSort.ThreeWayDoesNotStop` | zhwkre/alg.h:6-9 | With a three-way comparator a list of two different elements is never finished. |
| `BubbleSort.PassRemovesOne` | zhwkre/algorithm/bubble_sort.c:7-16 | Every restart removes exactly one inversion. |
| `BubbleSort.NumberOfExchanges` | zhwkre/algorithm/bubble_sort.c:7-16 | With a strict weak order the number of exchanges is the number of inversions. |
| `BubbleSort.PassesSort` | zhwkre/algorithm/bubble_sort.c:5-17 | Passes keep the stable sort of the list, and a list that no pass changes is it. |
| `BubbleSort.StableSortSorts` | zhwkre/alg.h:6-9 | The stable sort ascends and is a permutation. |
| `BubbleSort.StableSortIsStable` | zhwkre/alg.h:6-9 | In the stable sort elements that count as equal keep their order. |
| `Strings.StringComparator` | zhwkre/utils/utils.c:43-56 | The loop over signed characters computes the comparison of two zero-terminated texts: below zero if and only if the first comes first in the dictionary order of signed characters, above zero if and only if the second does. |
| `Strings.CompareIsDictionaryOrder` | zhwkre/utils/utils.c:46-55 | The comparison is below zero exactly if up to some position both texts agree and there the first has ended and the second has not, or the first has the lower signed character. |
| `Strings.CompareValue` | zhwkre/utils/utils.c:47-55 | Its value is the difference of the first differing signed characters, or else of the lengths. |
| `Strings.CharIsSigned` | zhwkre/utils/utils.c:44 | A character is the byte modulo 256 between -128 and 127. |
| `Strings.StringsAreOrdered` | zhwkre/utils/utils.c:43-56 | That comparison obeys the three-way laws and is zero exactly for equal texts. |

## Left out

- Allocation failure, `free`, leaks, dangling pointers, error codes and log output: memory is unlimited and nodes that are freed are simply no longer part of a structure.
- Sharing of key and value bytes: data are values here, so aliasing between a container's copy and the caller's memory does not occur.
- BTree.Tree.PtrAt: asks for a height of at most the 100 entries of the track, beyond which the source writes past it; BTree.Tree.Room gives that for fewer than 2^101 - 1 pairs.
- BTree.Tree.Erase: speaks of iterators that stand on a pair of this tree; an iterator from before a change is not modelled.
- AvlTree.Tree.Insert: claims no balance by itself; the exact condition is Balance.InsertBalancesExactly.
- LeftRotate and RightRotate on a node without the child they lift: the error return is never reached, because a factor of two or more implies the child.
- HashMap.Map: chains are sequences that the operations reassign; the linked list that holds them in the source is modelled and proved by itself in LinkedList. All keys of one map have the same length, as the source's comparison of bytes needs, and the hash function belongs to the map instead of being passed to every call.
- Serializer.ListSerialize: levels are sequences of buffers instead of a linked list of them, and the buffers are values there; the growing array itself is ByteStrings.ByteString. Where a buffer would be overrun the model stops.
- Serializer.ListUnserialize: asks that no item is nested 2^29 levels deep, beyond which the source overruns its path strings; Levels.PathsAreSmall gives that for every list that could be written.
- Serializer.RoundTrip: is about nested lists whose plain items do not begin like a descriptor and whose counters and item sizes fit into 32 bits, on a little-endian machine with eight-byte pointers; data that are not a list are copied and left out. Addresses in written descriptors are arbitrary; what is read back is the list they are overwritten with.
- BubbleSort.Sort: asks for a non-empty list, as the source dereferences `head`, and for a comparator that lets it stop.
- Strings.StringComparator: a blob without a terminating zero is compared up to its end; `strlen` values are not cut to 32 bits.
- qBTree__destructor, which is declared but not defined.
- The subtracting integer comparators of the tests, which overflow.
- containers/trie.c and containers/vector.c: single-buffer arithmetic and a structure without deletion.
- The network, FUSE and thread code around the library.
