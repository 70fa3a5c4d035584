# Basic data structures and insertion sort, modelled in Dafny

This project models the core of the `Basic` crates of an algorithms
collection written in Rust:

- **`BinaryTree`** (`tree.dfy`). An unbalanced binary search tree of
  integers.
  - Nodes are heap objects with `left`, `right` and `parent` links.
  - `insert` walks a cursor down from the root: left when `x` is smaller
    than the cursor's value, right otherwise, so ties go right. It hangs a
    new leaf in the first empty slot it meets, with a back-link to the node
    it hangs from.
  - `find` searches the root, then the whole left subtree, then the whole
    right subtree. It never uses the order to prune, so it returns the first
    match in pre-order.
  - Ghost bookkeeping on the tree lists the nodes in insertion order
    (`Nodes`) and records the turns from the root to each node (`Path`).
  - The invariants are shape, parent links, search order with ties to the
    right, and "every node listed once". All of them are stated pairwise over
    positions.
- **`insert_sort`** (`sort.dfy`). In-place insertion sort of an array by
  adjacent swaps, with a caller-supplied "is less" comparator.
  - It is proved equal to a functional reference `SortSpec` for every
    asymmetric comparator.
  - `SortSpec` is proved to be a permutation always, to be sorted under a
    strict weak order, and to be the only sorted permutation under a strict
    total order.
- **`Queue` and `Stack` over a vector** (`queue.dfy`, `stack.dfy`). Each is a
  class whose vector is a sequence field. The unit tests become scenarios
  over any sequence of values: first in first out, last in first out.
- **`SingleLinkedList::search`** (`linked_list.dfy`). The list is a value
  (boxes own their contents). The search returns the node of the first
  match.

`wrappers.dfy` holds the `Option` type that models Rust's `Option`.

## Model

| member | source | states |
|---|---|---|
| Tree.TreeNode.constructor | Basic/data_structures/src/tree.rs:17-24 | The new node holds `x`, has no parent and has two empty subtrees. |
| Tree.TreeNode.Leaf | Basic/data_structures/src/tree.rs:26-33 | The new leaf holds `x`, records the given parent and has two empty subtrees. |
| Tree.BinaryTree.constructor | Basic/data_structures/src/tree.rs:56-58 | `BinaryTree::new` (the default tree): a new tree is valid, has no root and stores no value. |
| Tree.BinaryTree.IsEmpty | Basic/data_structures/src/tree.rs:52-54 | The tree is empty exactly when it stores no value. |
| Tree.BinaryTree.Insert | Basic/data_structures/src/tree.rs:62-101 | The invariants are kept, including search order with ties to the right. Exactly one node is added, so the stored values gain exactly `x` (as a sequence and as a multiset). On an empty tree the new node becomes the root with no parent and no children. Otherwise the root stays, and the new leaf sits one turn below its parent, on the side `x < parent.value` selects, in a slot that was empty. No existing node moves or changes its links, except that one empty slot now holds the leaf. |
| Tree.BinaryTree.SlotFor | Basic/data_structures/src/tree.rs:66-98 | The insertion loop ends, because each step descends into a strictly smaller subtree. It stops at a node whose slot on the side chosen by `x < value` is empty, and that slot is free for `x`: nothing lies beneath it, and `x` is in search order with every node above it. |
| Tree.BinaryTree.Hang | Basic/data_structures/src/tree.rs:70-87 | The left-side write (lines 70-73) or the right-side write (lines 84-87): writing a new leaf for `x` into the free slot, with its parent link, changes nothing else and keeps every invariant of the tree. |
| Tree.BinaryTree.Descend | Basic/data_structures/src/tree.rs:69-97 | Turning toward `x` (left when `x` is smaller, otherwise right) keeps `x` in search order with every node passed on the way down. |
| Tree.BinaryTree.PrepareAttach | Basic/data_structures/src/tree.rs:70-87 | The empty slot where the walk stops is free for `x`: no node sits at it or beneath it, and `x` is ordered against every node above it. |
| Tree.BinaryTree.BelowChild | Basic/data_structures/src/tree.rs:75-96 | A child's subtree is strictly smaller than its parent's, which bounds the insertion loop and the recursion of `find`. |
| Tree.BinaryTree.SingletonValid | Basic/data_structures/src/tree.rs:63-64 | A tree whose only node is a root with no parent and no children is valid. |
| Tree.BinaryTree.HangKeepsValid | Basic/data_structures/src/tree.rs:70-87 | Hanging a value in a slot that is free for it keeps shape, parent links, search order and the node list. |
| Tree.BinaryTree.HangEffects | Basic/data_structures/src/tree.rs:70-87 | Hanging a leaf appends one node and one value. The leaf hangs from a node already in the tree, on the side `x < parent.value` selects. Every other node keeps its position and links. |
| Tree.BinaryTree.Find | Basic/data_structures/src/tree.rs:103-122 | A node comes back exactly when `x` is stored, so an empty tree gives none. That node is in the tree, holds `x`, and is the first node holding `x` in pre-order. |
| Tree.BinaryTree.FindFrom | Basic/data_structures/src/tree.rs:103-122 | On any subtree: none exactly when no node of its pre-order holds `x`, otherwise the first such node, found by checking the node, then the left subtree, then the right subtree. |
| Tree.BinaryTree.PreOrderScan | Basic/data_structures/src/tree.rs:112-118 | When a node does not hold `x`, the first match in its pre-order is the first match of its left subtree, or if there is none, that of its right subtree. |
| Tree.BinaryTree.PreOrderCovers | Basic/data_structures/src/tree.rs:109-118 | The pre-order visit of a subtree meets every node of that subtree and nothing else. |
| Tree.BinaryTree.FindCovers | Basic/data_structures/src/tree.rs:109-118 | The pre-order scan of the whole tree finds `x` exactly when `x` is among the stored values, and what it finds is a node of the tree. |
| Tree.FirstWithIsFirst | Basic/data_structures/src/tree.rs:109-118 | No node before the one the scan returns holds `x`. |
| Tree.ScanPastNode | Basic/data_structures/src/tree.rs:112-118 | Scanning past a node that does not hold `x` scans the left part, then the right part. |
| Sort.InsertSort | Basic/sort_algos/src/lib.rs:1-11 | The array ends as a permutation of its old contents for any comparator. Arrays of length 0 or 1 are untouched. For an asymmetric comparator the result equals `SortSpec` of the old contents. |
| Sort.InsertPass | Basic/sort_algos/src/lib.rs:4-8 | One inner pass of adjacent swaps keeps the same elements and leaves everything after `i` untouched. When the comparator is asymmetric and the prefix before `i` was sorted, the prefix up to `i` becomes the element at `i` inserted from the right. |
| Sort.InsertFromRight | Basic/sort_algos/src/lib.rs:4-8 | Inserting from the right adds exactly one occurrence of the element. |
| Sort.SortSpec | Basic/sort_algos/src/lib.rs:1-11 | The reference sort keeps the length and the multiset of elements. |
| Sort.SortSpecStep | Basic/sort_algos/src/lib.rs:3-9 | Sorting one more element of a prefix inserts that element into the sorted shorter prefix. |
| Sort.InsertAt | Basic/sort_algos/src/lib.rs:4-8 | The inserted element lands just after the last element it is not less than. Earlier elements stay and later ones shift one place right. |
| Sort.InsertKeepsAdjacent | Basic/sort_algos/src/lib.rs:4-8 | Under an asymmetric comparator, inserting into an adjacent-sorted sequence keeps it adjacent-sorted. |
| Sort.SortSpecAdjacent | Basic/sort_algos/src/lib.rs:1-11 | Under an asymmetric comparator, the reference sort is adjacent-sorted. |
| Sort.AdjacentToSorted | Basic/sort_algos/src/lib.rs:1-11 | Under a strict weak order, adjacent order is full order. |
| Sort.SortSpecSorted | Basic/sort_algos/src/lib.rs:1-11 | Under a strict weak order, the reference sort is sorted. |
| Sort.SortedUnique | Basic/sort_algos/src/lib.rs:29-31 | Under a total comparator, two sorted sequences with the same elements are equal element by element. |
| Sort.SortSpecIsTheSort | Basic/sort_algos/src/lib.rs:22-31 | Under a strict total order, any sorted permutation of the input is the reference sort. |
| Sort.SwapStep | Basic/sort_algos/src/lib.rs:5-7 | An inner-pass swap happens only while the inserted element is still moving, and it moves that element one place left. |
| Sort.PassStep | Basic/sort_algos/src/lib.rs:4-8 | One comparison of the inner pass, with or without its swap, keeps the inner loop's invariant. |
| Sort.Passed | Basic/sort_algos/src/lib.rs:4-8 | At the end of the inner pass the prefix is the element inserted from the right. |
| Sort.SortStep | Basic/sort_algos/src/lib.rs:3-9 | One inner pass moves the outer loop's invariant from `i` to `i + 1`. |
| Sort.IntLessIsTotal | Basic/sort_algos/src/lib.rs:27 | The test's comparator `IntLess`, integer `<`, is a strict total order, so every hypothesis of the sort's properties holds for it. |
| Sort.SortResultOk | Basic/sort_algos/src/lib.rs:18-32 | Sorting a copy of `a` with `<` gives exactly `ans`, for any ascending arrangement `ans` of the same values. |
| Queue.VecQueue.constructor | Basic/data_structures/src/queue.rs:27-29 | A new queue is empty. |
| Queue.VecQueue.Enqueue | Basic/data_structures/src/queue.rs:11-13 | `x` is appended at the back. |
| Queue.VecQueue.Dequeue | Basic/data_structures/src/queue.rs:15-21 | An empty queue gives `None` and is unchanged. Otherwise the front element comes back and the rest keep their order. |
| Queue.VecQueue.Size | Basic/data_structures/src/queue.rs:23-25 | The size is the number of stored elements (the vector's length), and it is 0 exactly when the queue is empty. |
| Queue.FifoScenario | Basic/data_structures/src/queue.rs:54-68 | After enqueuing all values the size is their number. Dequeuing that many times yields them in the order they went in, and the size is then 0. |
| Stack.VecStack.constructor | Basic/data_structures/src/stack.rs:23-25 | A new stack is empty. |
| Stack.VecStack.Push | Basic/data_structures/src/stack.rs:11-13 | `x` is appended on top. |
| Stack.VecStack.Pop | Basic/data_structures/src/stack.rs:15-17 | An empty stack gives `None` and is unchanged. Otherwise the top element comes back and the rest stay. |
| Stack.VecStack.Size | Basic/data_structures/src/stack.rs:19-21 | The size is the number of stored elements (the vector's length), and it is 0 exactly when the stack is empty. |
| Stack.LifoScenario | Basic/data_structures/src/stack.rs:50-64 | After pushing all values the size is their number. Popping that many times yields them in reverse order, and the size is then 0. |
| LinkedList.Search | Basic/data_structures/src/linked_list.rs:11-22 | A node comes back exactly when `x` is in the list, so an empty list gives none. The node holds `x`, it starts the suffix of the list at that point, and no earlier value equals `x`. |

## Left out

- **Tree rendering.** `fmt_with_count` and the `Display` impl (tree.rs lines 125-181) format text through `std::fmt`, which is output only.
- **Reference counting.** `Rc`, `RefCell`, `Weak` and `unwrap_unchecked` become plain object references. `Weak` parent links become nullable fields. A borrow that fails at run time has no counterpart.
- **Tree.BinaryTree.Find:** does not model writes to a node's public `value` field (tree.rs line 9) made through the shared handle `find` returns (tree.rs line 103). In the model `value` is a constant, so such writes cannot be expressed. `Valid()`, and with it the contracts of `Insert` and `Find`, hold only when callers never change a stored node's value; a caller that does can break the search order.
- **Element types.** Tree values are `int`. The tree's generic `T: PartialOrd` is not modelled, and neither are floating-point values.
- **Tree.BinaryTree.SlotFor:** proves that the insertion loop ends, not the explicit bound of height + 1 iterations.
- **Tree operations absent from tree.rs.** Removal, minimum, maximum, predecessor, successor and in-order iteration are not defined there, so they are not modelled.
- **`TreeNode::to_root`.** It only wraps a node for sharing. Storing the node reference directly stands in for it.
- **Linked-list-backed `Queue` and `Stack`.** These impls (queue.rs lines 32-48, stack.rs lines 28-44) and their tests rely on `push_head`, `push_tail`, `pop_head`, `len` and `iter`. None of these is defined in linked_list.rs, so those impls are not part of this model.
- **`Basic/data_structures/tests/test_single_linked_list.rs`.** The test does not call `search`. It exercises list operations that linked_list.rs does not define: `new`, `default`, `push_head`, `push_tail`, `pop_head`, `len`, `is_empty`, `iter`, `find`, `find_mut`, `split`, `concat`, `insert_after`, `pop_after` and `pop_match`. They are not part of this model.
- **`dictionary.rs`.** Its `Dictionary` trait has no working implementation: almost every method body is `todo!()` (lines 26-69), and `predecessor` (line 58) has an empty body where an `Option` is returned, so the file does not type-check. There is no behaviour to model.
- **`usize` limits.** Vector lengths and sizes are unbounded naturals.
- **Sort.InsertSort:** equality with the reference `SortSpec` is stated only for asymmetric comparators. Sortedness and agreement with the standard library's sort additionally need a strict weak order or a strict total order. For other comparators only the permutation property is stated. The stability of the sort (equal elements keep their order, since only strictly-less neighbours are swapped) is not stated: the only caller in the source sorts integers with `<`, where equal elements cannot be told apart, and stating it needs an order-preserving filter over equivalence classes that the rest of the model does not use.
- **The unit test's data.** The random input of the sort test and the fixed range `0..10` of the queue and stack tests are generalised to any input.
- **Tree.BinaryTree.Find:** follows the code, which searches the whole tree in pre-order. It does not model a search that descends by value in O(height) steps.
