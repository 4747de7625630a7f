# Verified model of three Java containers: an AVL tree, a search tree and a linked list

This project models three small sequential containers from a Java repository, written in Dafny. Each operation is proved against a specification:

- `AVL.java`: an order-statistic AVL tree. Every node caches a one-based height and the sizes of its two subtrees.
- `BST.java`: the same search tree without rotations.
- `LinkedList.java`: a singly linked list that keeps head, tail and size fields.

Elements are `int`. A Java `null` argument is modelled as `Option.None`. An exception is modelled as `Result.Failure` carrying its kind.

Files:

- `wrappers.dfy`: `Option`, `Result` and the exception kinds.
- `search_tree.dfy`: the node shared by both trees, modelled as the datatype `Tree`.
  - Every node has exactly one parent, so an in-place update of a node's fields is modelled as building the updated node value.
  - It holds the in-order, pre-order and post-order sequences, the search-tree order, exact heights (`HeightsOk`) and exact subtree counters (`CountsOk`).
  - It also holds `updateHeight`.
- `tree_queries.dfy`: the read-only operations both trees share:
  - the cursor loops of `contains`, `first`, `last` and `getPredecessor`;
  - `floor`, `ceiling`, `higher` and `lower`;
  - rank access `getHelp`;
  - the pruned range walk;
  - the traversals and the snapshot iterator.
- `avl_balance.dfy`: the balance factor, the four rotations and `checkBalance`. It also proves that rebalancing restores the AVL condition.
- `avl.dfy`: AVL insertion and deletion, which rebalance on the way back up, and the class `AvlTree` with fields `root` and `size`.
- `bst.dfy`: BST insertion (as written and corrected), deletion, and the class `BstTree`.
- `linked_list.dfy`: the heap-allocated list.
  - `Node` and `LinkedList` are classes whose fields change in place.
  - Ghost fields `Contents`, `Nodes` and `Repr` give the abstract sequence, the chain of nodes and the list's footprint.
  - Every loop is proved against `Contents`.
  - `Linked()` is the intact chain; `Valid()` adds that `tail` is the last node. The read-only methods and the as-written `remove(pos)` need only `Linked()`, since they never read `tail`.

## Model

| member | source | states |
|---|---|---|
| SearchTree.Leaf | AVL.java:73-78 | A new node is a one-element search tree: elements {e}, in-order [e], height 1, with exact heights and counters. |
| SearchTree.UpdateHeight | AVL.java:726-749 | null is left alone. A node gets height 1 + max of its children's heights, with an absent child counting 0. When both children's heights are exact, every height in the result is exact. A node whose heights are already exact is unchanged. |
| SearchTree.InOrderSize | AVL.java:124-144 | The in-order snapshot has one entry per node. |
| SearchTree.InOrderElements | AVL.java:124-144 | The in-order snapshot holds exactly the tree's elements. |
| SearchTree.TraversalsAgree | AVL.java:124-144 | The pre-order, in-order and post-order snapshots are permutations of each other. |
| SearchTree.IncreasingSplit | AVL.java:124-144 | Splitting a sequence at a middle element: the whole is strictly increasing iff both parts are, and every left element is below the middle and every right element above it. |
| SearchTree.BstIffIncreasing | AVL.java:231-253 | A tree is in search-tree order iff its in-order snapshot is strictly increasing. |
| SearchTree.BstCardinality | AVL.java:231-253 | In a search tree the number of distinct elements equals the number of nodes, so no element is stored twice. |
| TreeQueries.MinOf | AVL.java:446-456 | The leftmost element is in the tree, and in a search tree it is the smallest. |
| TreeQueries.MaxOf | AVL.java:989-995 | The rightmost element, which is what getPredecessor returns for a left subtree, is in the tree, and in a search tree it is the largest. |
| TreeQueries.Search | AVL.java:353-382 | The cursor loop of contains answers true exactly when the element is in the tree. |
| TreeQueries.Leftmost | AVL.java:446-456 | The cursor loop of first returns a member that is at most every element. |
| TreeQueries.Rightmost | AVL.java:810-821 | The cursor loop of last and getPredecessor returns the rightmost element: a member that is at least every element. |
| TreeQueries.Floor | AVL.java:484-502 | The result is the greatest element <= e, or none when there is none. |
| TreeQueries.Ceiling | AVL.java:304-320 | The result is the least element >= e, or none when there is none. |
| TreeQueries.Higher | AVL.java:778-795 | The result is the least element > e, or none when there is none. |
| TreeQueries.Lower | AVL.java:847-865 | The result is the greatest element < e, or none when there is none. |
| TreeQueries.GetHelp | AVL.java:523-544 | Whatever the counters say, the descent answers an element of the tree or null, and an empty tree answers null. |
| TreeQueries.GetHelpRank | AVL.java:523-544 | When every counter is exact, getHelp(index) returns the element at position index of the in-order sequence, for every index in [0, size). |
| TreeQueries.InRangeConcat | AVL.java:577-610 | Filtering a concatenation to [lo, hi] is the concatenation of the filtered parts. |
| TreeQueries.InRangeNone | AVL.java:577-610 | A part with no element inside [lo, hi] contributes nothing. This is why the walk may skip a subtree. |
| TreeQueries.InRangeMembers | AVL.java:555-567 | The range result holds exactly the elements in [lo, hi], and in increasing order when the input is. |
| TreeQueries.RangeTraverse | AVL.java:577-610 | The pruned walk appends exactly the in-order elements that lie in [lo, hi], in order. |
| TreeQueries.RangeSplit | AVL.java:583-606 | The range of a search tree splits at its root. A root inside the range sits between its subtrees' ranges. A root below lo leaves only the right subtree's range, and a root above hi only the left subtree's. This is why the walk may prune. |
| TreeQueries.Traverse | AVL.java:124-144 | traverse appends the nodes to the accumulator in the requested order: in, pre or post. |
| TreeQueries.Itr.constructor | AVL.java:87-96 | The iterator starts at position 0 on a copy of the chosen traversal. The in-order copy of a search tree is strictly increasing. |
| TreeQueries.Itr.HasNext | AVL.java:99-101 | True iff elements remain. |
| TreeQueries.Itr.Next | AVL.java:105-110 | Returns the element at the cursor and advances. Past the end it fails with NoSuchElement and moves nothing. |
| AvlBalance.BalanceFactor | AVL.java:628-640 | null gives 0. For a node whose height is current, the result is height(right) - height(left), with absent children counting 0. |
| AvlBalance.RotateLL | AVL.java:647-658 | B (the left child) becomes the root with A as its right child. The in-order sequence, elements and size are unchanged. Size counters move with their nodes unchanged. Heights are exact again. |
| AvlBalance.RotateRR | AVL.java:665-676 | Mirror image of LL: B (the right child) becomes the root, and the same facts hold. |
| AvlBalance.RotateLR | AVL.java:683-697 | C (the left child's right child) becomes the root, with B and A as its children. The in-order sequence is unchanged. Counters are unchanged. Heights are exact again. |
| AvlBalance.RotateRL | AVL.java:704-718 | Mirror image of LR. |
| AvlBalance.CheckBalance | AVL.java:171-196 | A node with balance factor in [-1, 1] is returned unchanged. In every case the in-order sequence and size are kept and heights stay exact. |
| AvlBalance.CheckBalanceKeepsOrder | AVL.java:171-196 | checkBalance keeps search-tree order. |
| AvlBalance.RebalanceRR | AVL.java:177-184 | Case bf = 2 with a right child that is not left-heavy: RR yields an AVL tree whose height drops by at most 1. |
| AvlBalance.RebalanceRL | AVL.java:177-184 | Case bf = 2 with a left-heavy right child: the grandchild exists, and RL yields an AVL tree whose height drops by at most 1. |
| AvlBalance.RebalanceLL | AVL.java:185-194 | Case bf = -2 with a left child that is not right-heavy: LL yields an AVL tree. |
| AvlBalance.RebalanceLR | AVL.java:185-194 | Case bf = -2 with a right-heavy left child: the grandchild exists, and LR yields an AVL tree. |
| AvlBalance.Rebalance | AVL.java:171-196 | When both subtrees are AVL and their heights differ by at most 2, checkBalance returns an AVL tree whose height is the old height or one less. |
| Avl.Retrace | AVL.java:248-250 | updateHeight followed by checkBalance leaves exact heights and keeps the in-order sequence, the elements and the size. |
| Avl.AfterGrow | AVL.java:248-250 | After one child grew by at most 1, retracing gives an AVL tree whose height is 1 or 2 more than the taller old child. |
| Avl.AfterShrink | AVL.java:955-957 | After one child shrank by at most 1, retracing gives an AVL tree whose height is within 1 of its old height. |
| Avl.RetraceAvl | AVL.java:171-196 | Retracing a node that is already AVL changes nothing. |
| Avl.Insert | AVL.java:231-253 | Heights stay exact. The elements become the old elements plus item. The node count grows by one exactly when the flag (size++) is raised. |
| Avl.InsertCorrect | AVL.java:231-253 | In an AVL search tree: the flag is raised iff item was absent. The result is an AVL search tree. Its height is the old height or one more. |
| Avl.InsertRight | AVL.java:240-250 | The same facts when the descent goes right: the grown subtree is hung back, the right counter is bumped and the node is retraced. |
| Avl.InsertLeft | AVL.java:244-250 | The same facts when the descent goes left. |
| Avl.RecRemove | AVL.java:923-960 | Heights stay exact and no element is added. |
| Avl.RemoveNode | AVL.java:967-981 | A missing left child promotes the right subtree, and a missing right child promotes the left one. With two children the node keeps its right subtree and takes the greatest element of its left subtree. The children of the replacement have exact heights, and no element is added. |
| Avl.RecRemoveCorrect | AVL.java:923-960 | In an AVL search tree: the found flag is raised iff target was present. The elements lose exactly target. The result is an AVL search tree whose height drops by at most 1. |
| Avl.RecRemoveLeft | AVL.java:927-937 | The same facts when the removal descends left and rebalances on the way back. |
| Avl.RecRemoveRight | AVL.java:938-948 | The same facts when the removal descends right. |
| Avl.ShrinkLeft | AVL.java:927-937 | Hanging a correct removal result back as the left child and retracing the child and then the node gives a correct removal from the node, with the counter decremented exactly when something was found. |
| Avl.ShrinkRight | AVL.java:938-948 | The mirror image of ShrinkLeft. |
| Avl.RemoveNodeCorrect | AVL.java:967-981 | Removing the node itself and retracing loses exactly its element and leaves an AVL search tree whose height is the old height or one less. |
| Avl.RemoveNodeWithTwo | AVL.java:975-980 | With two children, the root takes the in-order predecessor (the greatest element of the left subtree), and the left subtree loses exactly that element. After retracing, the result is an AVL search tree without the old root element, with the old height or one less. |
| SearchTree.TruncDiv2 | AVL.java:42 | Java's `(low+high)/2`: the remainder a - 2q lies in [-1, 1] and never has the opposite sign to a, so the quotient truncates toward zero (for example -1 gives 0, not -1). |
| Avl.RotationLeavesCountersStale | AVL.java:647-676 | Inserting a < b < c into an empty tree gives in-order [a, b, c], but the RR rotation leaves the new root's counters wrong: CountsOk fails and get(0) answers b instead of a. |
| Avl.StaleShape | AVL.java:523-544 | In the tree that ascending insertion builds, the in-order sequence is [a, b, c], the counters are not exact, and rank 0 answers b. |
| Avl.InsertAscending | AVL.java:231-253 | The shape built by inserting three ascending elements: root b with child a (counters 0 and 2) and leaf c. |
| Avl.AvlTree.constructor | AVL.java:21-24 | An empty tree of size 0. |
| Avl.AvlTree.Contains | AVL.java:353-382 | null throws NullPointer. Otherwise the answer is element membership. |
| Avl.AvlTree.Add | AVL.java:153-167 | null throws and nothing changes. Otherwise: the answer is true iff e was absent; the elements gain e; a present e leaves the root unchanged; size grows exactly on true; order, heights and balance are kept. |
| Avl.AvlTree.Remove | AVL.java:904-914 | null throws and nothing changes. Otherwise: the answer is true iff o was present; the elements lose o; size shrinks exactly on true; order, heights and balance are kept. |
| Avl.AvlTree.First | AVL.java:446-456 | An empty tree throws NoSuchElement. Otherwise the result is the smallest element. |
| Avl.AvlTree.Last | AVL.java:810-821 | An empty tree throws NoSuchElement. Otherwise the result is the largest element. |
| Avl.AvlTree.Floor | AVL.java:465-476 | It fails exactly when e is null or the tree is empty, and then with NullPointer. Otherwise it succeeds, and the result is the floor of e. |
| Avl.AvlTree.Ceiling | AVL.java:284-294 | It fails exactly when e is null or the tree is empty, and then with NullPointer. Otherwise it succeeds, and the result is the ceiling of e. |
| Avl.AvlTree.Higher | AVL.java:757-769 | It fails exactly when e is null or the tree is empty, and then with NullPointer. Otherwise it succeeds, and the result is the least element > e. |
| Avl.AvlTree.Lower | AVL.java:830-838 | It fails exactly when e is null or the tree is empty, and then with NullPointer. Otherwise it succeeds, and the result is the greatest element < e. |
| Avl.AvlTree.Get | AVL.java:510-515 | It throws IndexOutOfBounds exactly when index is outside [0, size). When the counters are exact, the result is the index-th element in order. Any element it answers is one of the tree's. |
| Avl.AvlTree.GetRange | AVL.java:555-567 | A null bound throws NullPointer. from > to throws IllegalArgument. Two present bounds with from <= to always succeed: an empty tree gives null, and otherwise the result is the increasing list of elements in [from, to]. |
| Avl.AvlTree.NewIterator | AVL.java:873-893 | A fresh iterator over the requested traversal. The in-order one is strictly increasing. |
| Avl.AvlTree.Adder | AVL.java:41-52 | An empty array throws ArrayIndexOutOfBounds. Otherwise the elements gain exactly arr[low..high], and the tree stays an AVL search tree. |
| Avl.AvlTree.FromArray | AVL.java:26-33 | A null array throws IllegalArgument and an empty one ArrayIndexOutOfBounds. A non-empty array always succeeds, and the tree is an AVL search tree holding exactly the array's elements. |
| Bst.BstTree.Adder | BST.java:40-52 | The middle-first insertion through BST's own add, with no membership probe. An empty array throws ArrayIndexOutOfBounds. Otherwise the elements gain exactly arr[low..high], and order and heights are kept. |
| Bst.BstTree.FromArray | BST.java:25-32 | A null array throws IllegalArgument and an empty one ArrayIndexOutOfBounds. A non-empty array always succeeds, with order and heights kept and exactly the array's elements. |
| Bst.Insert | BST.java:197-221 | Heights stay exact. The elements become the old elements plus item. The node count grows by one exactly when the flag (size++) is raised. |
| Bst.InsertCorrect | BST.java:197-221 | The flag is raised iff item was absent, and order is kept. A fresh insertion keeps every counter exact. A duplicate leaves the in-order sequence unchanged. |
| Bst.InsertRight | BST.java:210-219 | The same facts when the descent goes right. |
| Bst.InsertLeft | BST.java:215-219 | The same facts when the descent goes left. |
| Bst.DuplicateInsertBreaksCounters | BST.java:206-218 | Adding an element already present below the root, to a tree with exact counters, leaves the root's counter for the side descended into one more than that subtree's size, so the counters are no longer exact. |
| Bst.DuplicateInsertMisleadsGet | BST.java:485-511 | From tree [a, b] with exact counters, adding a again leaves in-order [a, b], but get(1) then finds nothing. |
| Bst.RecRemove | BST.java:785-813 | Heights stay exact and no element is added. |
| Bst.RemoveNode | BST.java:820-834 | A missing left child promotes the right subtree, and a missing right child promotes the left one. With two children the node keeps its right subtree and takes the greatest element of its left subtree. The children of the replacement have exact heights, and no element is added. |
| Bst.RecRemoveCorrect | BST.java:785-813 | In a search tree: the found flag is raised iff target was present. The elements lose exactly target. The size drops by exactly the flag. Order is kept. Exact counters stay exact. |
| Bst.RecRemoveLeft | BST.java:790-797 | The same facts when the removal descends left. |
| Bst.RecRemoveRight | BST.java:798-804 | The same facts when the removal descends right. |
| Bst.RemoveNodeCorrect | BST.java:820-834 | Removing the node itself loses exactly its element and one node and keeps order. It keeps the counters exact once the caller has decremented leftSize. |
| Bst.ReplaceRoot | BST.java:828-833 | Putting the left subtree's maximum in the root over the left subtree with that maximum removed keeps search-tree order and loses only the old root element. |
| Bst.PredecessorAbove | BST.java:842-848 | Every element left after removing the predecessor lies below it. |
| Bst.BstTree.constructor | BST.java:21-24 | An empty tree of size 0. |
| Bst.BstTree.Contains | BST.java:323-352 | null throws NullPointer. Otherwise the answer is membership. |
| Bst.BstTree.AddAsWritten | BST.java:157-168 | The code as written: answers and elements as for a set insertion, and size grows only on true. A fresh insertion keeps exact counters. A duplicate leaves the in-order sequence alone but corrupts the counters whenever it lies below the root. |
| Bst.BstTree.Add | BST.java:157-168 | Corrected: probing with contains first keeps every counter exact. Answers, elements and size are as for a set insertion. |
| Bst.BstTree.Remove | BST.java:766-776 | Needs only order and exact heights. null throws and nothing changes. Otherwise: the answer is true iff o was present; the elements lose o; size shrinks exactly on true; order and heights are kept, and counters that were exact stay exact. |
| Bst.BstTree.First | BST.java:420-430 | An empty tree throws NoSuchElement. Otherwise the result is the smallest element. |
| Bst.BstTree.Last | BST.java:673-684 | An empty tree throws NoSuchElement. Otherwise the result is the largest element. |
| Bst.BstTree.Ceiling | BST.java:250-263 | An empty tree answers null before the argument is looked at. Otherwise a null e throws NullPointer, and a present e succeeds with the ceiling of e. |
| Bst.BstTree.Floor | BST.java:439-450 | It fails exactly when e is null or the tree is empty, and then with NullPointer. Otherwise it succeeds, and the result is the floor of e. |
| Bst.BstTree.Higher | BST.java:623-633 | It fails exactly when e is null or the tree is empty, and then with NullPointer. Otherwise it succeeds, and the result is the least element > e. |
| Bst.BstTree.Lower | BST.java:693-701 | It fails exactly when e is null or the tree is empty, and then with NullPointer. Otherwise it succeeds, and the result is the greatest element < e. |
| Bst.BstTree.Get | BST.java:485-511 | Needs only order and exact heights. It throws IndexOutOfBounds exactly when index is outside [0, size). When the counters are exact, the result is the index-th element in order. With stale counters it may answer null, and any element it answers is one of the tree's. |
| Bst.BstTree.GetRange | BST.java:522-575 | A null bound throws NullPointer. from > to throws IllegalArgument. Two present bounds with from <= to always succeed: an empty tree gives null, and otherwise the result is the increasing list of elements in [from, to]. |
| Bst.BstTree.NewIterator | BST.java:735-755 | A fresh iterator over the requested traversal. The in-order one is strictly increasing. |
| LinkedLists.FirstIndex | LinkedList.java:220-232 | -1 iff x is absent. Otherwise the position of an occurrence of x with none before it. |
| LinkedLists.Delete | LinkedList.java:113-140 | The sequence one shorter, with the elements before i unchanged and those after i shifted down by one. |
| LinkedLists.Node.constructor | LinkedList.java:31-33 | A node holding e with no successor. |
| LinkedLists.LinkedList.constructor | LinkedList.java:62-66 | An empty, well-linked list. |
| LinkedLists.LinkedList.Add | LinkedList.java:381-396 | null throws IllegalArgument and changes nothing. Otherwise e is appended after the tail, the answer is true, and the chain and tail stay consistent. |
| LinkedLists.LinkedList.Get | LinkedList.java:240-249 | An index outside [0, size) throws IndexOutOfBounds. Otherwise the result is the element at that position. |
| LinkedLists.LinkedList.RemoveAt | LinkedList.java:113-140 | Corrected: a position outside [0, size) throws IllegalArgument. Otherwise the element at pos is returned and deleted from the sequence. The chain and tail stay consistent. |
| LinkedLists.LinkedList.RemoveAtAsWritten | LinkedList.java:113-140 | The code as written, which needs only an intact chain: the same result and contents and an intact chain, but tail never moves. From a consistent tail, removing any but the last position keeps it consistent, and removing the last of two or more nodes leaves tail on an unlinked node. |
| LinkedLists.LinkedList.RemoveFirst | LinkedList.java:117-122 | Position 0: head moves to the second node and the first element is dropped. The chain stays intact, and a consistent tail stays consistent. |
| LinkedLists.LinkedList.Splice | LinkedList.java:125-137 | The cursor pair stops on the nodes at pos - 1 and pos, and then the unlink runs. When pos was not the last position, a consistent tail is still the last node. When it was, prev is now the last node, and a tail that was consistent is the removed node. |
| LinkedLists.LinkedList.Unlink | LinkedList.java:135-136 | prev, the node before pos, is linked past the node at pos and size drops by one. The chain stays intact, and the contents lose exactly position pos. |
| LinkedLists.LinkedList.IndexOf | LinkedList.java:220-232 | The position of the first occurrence of c, or -1. |
| LinkedLists.LinkedList.Contains | LinkedList.java:267-279 | True iff o occurs, which is the same as indexOf(o) != -1. |
| LinkedLists.LinkedList.RemoveObject | LinkedList.java:148-155 | The answer is true iff o was present. Then exactly its first occurrence is deleted, and otherwise nothing changes. It calls the corrected remove(pos), so the chain and tail stay consistent; the source's remove(Object) goes through its own remove(index) and inherits the stale tail (see Findings). |
| LinkedLists.LinkedList.Equals | LinkedList.java:72-98 | True iff the other list is not null and holds the same sequence. |
| LinkedLists.LinkedList.ToArray | LinkedList.java:334-343 | A fresh array of length size holding the elements in list order. |
| LinkedLists.ListItr.constructor | LinkedList.java:298-300 | The cursor starts at the head, at position 0. |
| LinkedLists.ListItr.HasNext | LinkedList.java:303-309 | True iff elements remain after the cursor. |
| LinkedLists.ListItr.Next | LinkedList.java:316-324 | Returns the element at the cursor and advances. Past the end it throws NoSuchElement. |

## Left out

- String rendering (`toString`, `preOrderPrint`, `toStringTreeFormat`): output formatting only.
- `clone`, tree `equals`, `containsAll`, `addAll`, `hashCode`, `size`, `isEmpty`, `height`, `leftSize`, `rightSize`, and the `UnsupportedOperationException` stubs of the list: these are interface boilerplate or field reads.
- `clear` of the trees and of the list: not part of this model.
- Runtime type checks (`getClass`) and every `ClassCastException` path: elements are `int`, so no other type can arrive.
- `Arrays.sort` in the bulk constructors, `LinkedList.sort` and `toArray(T[])`: library calls.
  - Avl.AvlTree.Adder, Bst.BstTree.Adder: the sort is not modelled, and Adder is not assumed to receive sorted input. Their contracts state the element set and the invariants, not the shape the sorted middle-first insertion would give.
- Bst.BstTree.FromArray: only order, heights and the element set are promised, not exact counters. BST's `adder` calls BST's own `add`, which has no membership probe, and an empty range re-adds an element already stored (see Findings).
- Avl.AvlTree.Adder: `low+high` is computed on unbounded integers. In Java the 32-bit sum overflows only for arrays of more than 2^30 elements, which the model does not consider.
- Bst.BstTree.Adder: the same unbounded `low+high` as the AVL version.
- The tree iterators copy the traversal when they are created, as the source does, so a later change to the tree is not seen by them. The list iterator is a live cursor, and a change to the list while it is in use is not modelled: `ListItr.Valid` ties the cursor to the current chain.
- `Itr.remove`: its body is empty.
- Null elements inside an array passed to the bulk constructors are not modelled.
- A null argument to the list's `indexOf`, `contains` or `remove(Object)` is not modelled. The list never stores null, so `equals(null)` is false for every element, and such a call behaves as for an absent value.
- Avl.AvlTree.Get: exact rank access is promised only when every counter is exact (`CountsOk`). The rotations leave the counters stale, so the contract is deliberately weaker than "the index-th element". `Avl.RotationLeavesCountersStale` shows a tree where the counters are stale and the answer is wrong.
- Avl.Insert, Avl.RecRemove: balance is proved for results built from AVL search trees (`InsertCorrect`, `RecRemoveCorrect`), not stated for arbitrary inputs.
- The shared mutable `found` field of the trees is the returned flag of `Insert`/`RecRemove`.
- Node identity of the trees is not modelled: nodes are values, so aliasing between tree nodes cannot be expressed. The source never shares a node between two parents.
- `getPredecessor` is modelled twice: by `MaxOf`, which the removal proofs use, and by the loop `Rightmost`.

## Findings

| source | as written | input that shows it | evidently intended | confidence | as-written member | corrected member |
|---|---|---|---|---|---|---|
| BST.java:157-168, 197-221 | `add` does not check for the element first. On a duplicate, `rightSize++`/`leftSize++` still runs at every node of the search path. | Tree with root b and left leaf a, counters exact. `add(a)` returns false, but the root's `leftSize` becomes 2, and `get(1)` then goes left to a and then right into a's empty subtree, and returns null instead of b. The bulk constructor reaches the same path: `new BST({1,2,3,4,5})` re-adds 1 from the empty range `adder(0,-1)`, the root 3 ends with `leftSize` 3 over a left subtree of 2 nodes, and `get(2)` returns null instead of 3. | A duplicate insertion leaves the tree unchanged, as AVL.java:153-167 does with its `contains` probe. | not executed | Bst.BstTree.AddAsWritten, Bst.DuplicateInsertMisleadsGet | Bst.BstTree.Add |
| LinkedList.java:113-140 | `remove(pos)` never updates `tail`. Removing the last node of a list of two or more leaves `tail` on the removed node. | List [x, y], `remove(1)`, then `add(z)`: z is linked after the detached node, size becomes 2, and the list still reads [x]. `remove(Object)` reaches the same path through `remove(index)`. | When the last node is removed, `tail` moves to its predecessor. | not executed | LinkedLists.LinkedList.RemoveAtAsWritten | LinkedLists.LinkedList.RemoveAt |
