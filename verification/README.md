# Algorithms and data structures in Rust, modelled in Dafny

This project models the core of a small Rust collection of textbook
algorithms and data structures, and proves properties of that model. It covers:

- **`list::linked_list::LinkedList`**: a doubly linked list. Heap nodes are
  owned front to back through `next`. Each node also has a non-owning `prev`
  pointer, and the list keeps a non-owning `tail` pointer.
  - The list operations are `size`, `is_empty`, `non_empty`, `push_back`,
    `push_front`, `pop_back`, `pop_front` and `clear`.
  - It has a shared iterator and a mutable iterator.
- **Three adapters** over that list:
  - `stack::LinkedStack` (LIFO);
  - `queue::LinkedQueue` (FIFO);
  - `bag::LinkedBag`, which only grows.
- **`sort`**:
  - the in-place sorts: bubble, insertion, selection and quick sort with its
    Lomuto `partition`;
  - the quick-select routine `smallest_n`, which returns the n-th smallest
    element (counting from 1).
- **`binary_search`**: six binary searches.
  - On a sorted slice: exact match, first match, last match, first element
    at least `v`, and last element at most `v`.
  - On a rotated ("cycled") sorted slice: exact match.
- **`two_sum`**: one pass with a hash map from a value to the latest index
  holding it. The pass reports every pair `(j, i)` with
  `nums[j] + nums[i] == target`, where `j` is the map's entry for the
  complement of `nums[i]`.

The modules follow the crates:

| module | crate / file | form |
|---|---|---|
| `Options` | `Option<T>` | datatype |
| `LinkedLists` | `list/src/linked_list.rs`, `list/src/lib.rs` | classes `Node`, `LinkedList`, `Iter` over heap nodes |
| `Stacks`, `Queues`, `Bags` | `stack`, `queue`, `bag` | classes wrapping a `LinkedList` |
| `SortSpec` | what `sort` promises | ghost predicates, functions and lemmas on `seq<int>` |
| `Sorting` | `sort/src/lib.rs` | methods over `array<int>` |
| `BinarySearch` | `binary_search/src/lib.rs` | methods with loops over `seq<int>` |
| `TwoSums` | `two_sum/src/lib.rs` | a method with a loop and a `map<int, nat>` |
| `*Scenarios`, `BinarySearchScenarios` | the crates' unit tests | methods whose postconditions are the tests' expected values |

The list state is a ghost `Nodes` sequence of heap nodes, with `Contents` as
their elements. `Valid()` ties `size`, `head`, `tail` and every `next`/`prev`
link to `Nodes`. The adapters expose their list's contents as `Items()`.

On the sorting side:
- Sorted means ascending with repeats allowed.
- "Permutation" is equality of multisets.
- The n-th smallest element is characterised without sorting. Fewer than n
  elements lie below it, and at least n lie at or below it (`NthSmallest`).
- Lemmas then show that this singles out exactly one value, and that it is
  what sorting puts at index n-1.

Two-sum gets an independent definition of which indices the pass reports
(`Matched`). Index i is matched when an earlier *unmatched* index holds
`target - nums[i]`. This captures that matched indices are never entered
into the map.

## Model

| member | source | states |
|---|---|---|
| `LinkedLists.Node.constructor` | src/list/src/linked_list.rs:67-73 | a new node holds the element and has no `prev` and no `next` |
| `LinkedLists.Node.Link` | src/list/src/linked_list.rs:76-79 | after linking, `next` follows this node and its back-pointer is this node; nothing else about the two nodes changes |
| `LinkedLists.LinkedList.constructor` | src/list/src/linked_list.rs:90-96 | a new list is valid and empty: no head, no tail, size 0 |
| `LinkedLists.LinkedList.Size` | src/list/src/linked_list.rs:113-115 | the stored `size` is the number of elements |
| `LinkedLists.LinkedList.IsEmpty` | src/list/src/lib.rs:19-21 | true exactly when the list holds no element |
| `LinkedLists.LinkedList.NonEmpty` | src/list/src/lib.rs:24-26 | true exactly when the list holds an element; the negation of `IsEmpty` |
| `LinkedLists.LinkedList.PushBack` | src/list/src/linked_list.rs:117-125 | the element is appended; the new node is the tail, its `prev` is the old tail, and the head is unchanged unless the list was empty; the list stays valid |
| `LinkedLists.LinkedList.PushFront` | src/list/src/linked_list.rs:127-135 | the element is prepended; the new node is the head, and the tail is unchanged unless the list was empty; the list stays valid |
| `LinkedLists.LinkedList.PopBack` | src/list/src/linked_list.rs:137-148 | on an empty list: None and no change; otherwise the last element is returned and removed, and the old tail's `prev` is the new tail |
| `LinkedLists.LinkedList.PopFront` | src/list/src/linked_list.rs:150-159 | on an empty list: None and no change; otherwise the first element is returned and removed, and the old head's successor is the new head; with the back-pointer reset, the list stays valid |
| `LinkedLists.LinkedList.PopFrontAsWritten` | src/list/src/linked_list.rs:150-159 | the same contents and result, but with two or more elements the new head keeps `prev` pointing at the removed node; only the chain structure survives, not `Valid()` |
| `LinkedLists.LinkedList.Clear` | src/list/src/linked_list.rs:161-166 | pops from the front until the list is empty: no contents, size 0, no head, no tail |
| `LinkedLists.LinkedList.Iter` | src/list/src/linked_list.rs:98-102 | a fresh iterator whose remaining items are exactly the contents, front first |
| `LinkedLists.LinkedList.ForEachMut` | src/list/src/linked_list.rs:104-108 | going through `iter_mut` and replacing each yielded element by `f` of it changes every element to `f` of its old value; nodes, size, head and tail stay the same |
| `LinkedLists.LinkedList.SetElem` | src/list/src/linked_list.rs:200-208 | writing through the `&mut` element that `IterMut::next` hands out for node k replaces element k of the contents and leaves the chain, size, head and tail unchanged; `ForEachMut` uses it for each write |
| `LinkedLists.LinkedList.Elements` | src/list/src/linked_list.rs:98-102 | a full pass of `iter()` yields exactly the contents, `size` items |
| `LinkedLists.Iter.constructor` | src/list/src/linked_list.rs:98-102 | the cursor starts at the head, with the whole contents remaining |
| `LinkedLists.Iter.Next` | src/list/src/linked_list.rs:182-190 | with nothing left: None, and the iterator stays exhausted; otherwise the first remaining item is yielded and the cursor moves to its successor |
| `LinkedLists.Collect` | src/list/src/linked_list.rs:263-267 | draining an iterator yields its remaining items in order |
| `LinkedListScenarios.BasicBuild` | src/list/src/linked_list.rs:216-236 | the first half of `test_basic`: contents 40 20 10 30 50 with sizes 0 to 5; the two pops on the empty list give None; `is_empty`/`non_empty` are true/false before the pushes and false/true after |
| `LinkedListScenarios.ProbeEmpty` | src/list/src/linked_list.rs:217-222 | on an empty list: size 0, `is_empty` true, `non_empty` false, and both pops give None, leaving the list empty |
| `LinkedListScenarios.MixedPushes` | src/list/src/linked_list.rs:224-234 | the five mixed pushes on an empty list give 40 20 10 30 50 with sizes 1 to 5 |
| `LinkedListScenarios.BasicScenario` | src/list/src/linked_list.rs:238-251 | alternating pops give 40, 50, 20, 30, 10 and then None twice, with sizes 4 down to 0; the emptied list is empty and not non-empty |
| `LinkedListScenarios.TensList` | src/list/src/linked_list.rs:256-261 | five `push_back`s give 10, 20, 30, 40, 50 |
| `LinkedListScenarios.IterScenario` | src/list/src/linked_list.rs:263-267 | iteration yields 10 to 50 in order; the count is 5 |
| `LinkedListScenarios.IterMutScenario` | src/list/src/linked_list.rs:279-291 | elements are 10 to 50 before adding 5 through `iter_mut`, and 15 to 55 after |
| `LinkedListScenarios.StalePrevScenario` | src/list/src/linked_list.rs:150-159 | push 1, push 2, then `pop_front` as written: the single remaining node is head and tail, but its `prev` points at the removed node, so the list is not valid |
| `LinkedListScenarios.RepairedPopFrontScenario` | src/list/src/linked_list.rs:137-159 | the same calls with the repaired `pop_front`: `pop_back` then returns 2 and the size is 0 |
| `Stacks.LinkedStack.constructor` | src/stack/src/lib.rs:24-28 | a new stack is valid and empty |
| `Stacks.LinkedStack.Size` | src/stack/src/lib.rs:49-51 | the number of stacked items |
| `Stacks.LinkedStack.IsEmpty` | src/stack/src/lib.rs:14-16 | true exactly when no item is stacked |
| `Stacks.LinkedStack.Push` | src/stack/src/lib.rs:39-41 | the item goes on top |
| `Stacks.LinkedStack.Pop` | src/stack/src/lib.rs:44-46 | None on an empty stack; otherwise the top item, the one pushed last, is returned and removed |
| `Stacks.LinkedStack.Iter` | src/stack/src/lib.rs:30-34 | yields the items from the top down |
| `Stacks.PushAndProbe` | src/stack/src/lib.rs:76-94 | a push followed by `size()` and `is_empty()`: the item is on top, the size is one more than before, and the stack is not empty |
| `Stacks.FiveStack` | src/stack/src/lib.rs:71-94 | pushing 10 to 50 gives top-first 50 to 10; the sizes are 0, 1, 2, 3, 4, 5, and the stack is empty only before the first push |
| `Stacks.StackScenario` | src/stack/src/lib.rs:96-118 | pops give 50 down to 10 and then None, with sizes 4 to 0 and the stack empty after the last item |
| `Stacks.StackIterScenario` | src/stack/src/lib.rs:122-137 | an empty stack yields nothing; after the pushes it yields 50 down to 10 |
| `Queues.LinkedQueue.constructor` | src/queue/src/lib.rs:24-28 | a new queue is valid and empty |
| `Queues.LinkedQueue.Size` | src/queue/src/lib.rs:47-49 | the number of queued items |
| `Queues.LinkedQueue.IsEmpty` | src/queue/src/lib.rs:14-16 | true exactly when nothing is queued |
| `Queues.LinkedQueue.Enqueue` | src/queue/src/lib.rs:38-40 | the item joins at the back |
| `Queues.LinkedQueue.Dequeue` | src/queue/src/lib.rs:42-44 | None on an empty queue; otherwise the oldest item is returned and removed |
| `Queues.LinkedQueue.Iter` | src/queue/src/lib.rs:30-34 | yields the items oldest first |
| `Queues.EnqueueAndProbe` | src/queue/src/lib.rs:74-92 | an enqueue followed by `size()` and `is_empty()`: the item is at the back, the size is one more than before, and the queue is not empty |
| `Queues.FiveQueue` | src/queue/src/lib.rs:69-92 | enqueuing 10 to 50 gives the queue 10 to 50; the sizes are 0, 1, 2, 3, 4, 5, and the queue is empty only before the first enqueue |
| `Queues.QueueScenario` | src/queue/src/lib.rs:94-117 | dequeues give 10 up to 50 and then None, with sizes 4 to 0 |
| `Queues.QueueIterScenario` | src/queue/src/lib.rs:120-131 | iteration yields 10 up to 50, five items |
| `Bags.LinkedBag.constructor` | src/bag/src/lib.rs:36-40 | a new bag is valid and empty |
| `Bags.LinkedBag.Size` | src/bag/src/lib.rs:56-58 | the number of items added |
| `Bags.LinkedBag.IsEmpty` | src/bag/src/lib.rs:26-28 | true exactly when nothing was added |
| `Bags.LinkedBag.Add` | src/bag/src/lib.rs:51-53 | the item is appended, even when an equal item is already present |
| `Bags.LinkedBag.Iter` | src/bag/src/lib.rs:42-46 | yields the items in the order they were added |
| `Bags.BagScenario` | src/bag/src/lib.rs:78-90 | the sizes are 0, 1, 2 and emptiness is true, false, false |
| `Bags.BagIterScenario` | src/bag/src/lib.rs:93-106 | after adding 10 to 50 the size is 5 and iteration yields them in order |
| `Bags.DuplicateScenario` | src/bag/src/lib.rs:51-53 | adding 7 twice keeps both copies |
| `SortSpec.Count` | src/sort/src/lib.rs:115-130 | a count never exceeds the length |
| `SortSpec.CountAppend` | src/sort/src/lib.rs:115-130 | counts add up over a concatenation |
| `SortSpec.CountPermutation` | src/sort/src/lib.rs:115-130 | permuting a sequence does not change any count |
| `SortSpec.SortedNthSmallest` | src/sort/src/lib.rs:115-130 | in a sorted sequence, the element at index n-1 is the n-th smallest |
| `SortSpec.NthSmallestUnique` | src/sort/src/lib.rs:115-130 | at most one value is the n-th smallest |
| `SortSpec.NthSmallestPermutation` | src/sort/src/lib.rs:115-130 | being the n-th smallest survives permutation, as `smallest_n` reorders its input |
| `SortSpec.NthSmallestIsSortedAt` | src/sort/src/lib.rs:115-130 | the n-th smallest is exactly what a sort places at index n-1 |
| `SortSpec.SortedPermutationUnique` | src/sort/src/lib.rs:137-178 | two sorted permutations of the same elements are equal, so every sort has one outcome |
| `SortSpec.PivotNthSmallest` | src/sort/src/lib.rs:122-124 | in a slice partitioned at r, the pivot is the (r+1)-th smallest |
| `SortSpec.RightNthSmallest` | src/sort/src/lib.rs:125-126 | the m-th smallest right of the pivot is the (r+1+m)-th smallest of the slice |
| `SortSpec.LeftNthSmallest` | src/sort/src/lib.rs:127-128 | for n at most r, the n-th smallest left of the pivot is the n-th smallest of the slice |
| `Sorting.Swap` | src/sort/src/lib.rs:76 | the two entries are exchanged, all others are unchanged, and the multiset is unchanged |
| `Sorting.SwapPreservesMultiset` | src/sort/src/lib.rs:76 | exchanging two entries of a sequence keeps its multiset |
| `Sorting.BubbleSort` | src/sort/src/lib.rs:15-36 | the array ends sorted and is a permutation of its input |
| `Sorting.BubblePass` | src/sort/src/lib.rs:24-35 | one pass keeps the multiset and extends the sorted tail of largest elements by one; a pass without a swap left the array unchanged and sorted |
| `Sorting.InsertionKeepsMultiset` | src/sort/src/lib.rs:46-56 | shifting the greater elements right and writing `x` into the gap permutes the array |
| `Sorting.InsertionExtendsSorted` | src/sort/src/lib.rs:46-56 | the same step makes a sorted prefix of length i into one of length i+1 |
| `Sorting.ShiftGreater` | src/sort/src/lib.rs:47-55 | stops at the first element at most `x`, or below index 0; every element passed was greater than `x` and moved one place right; the rest is untouched |
| `Sorting.Insert` | src/sort/src/lib.rs:46-56 | a sorted prefix a[0..i) becomes a sorted a[0..i], and the array is permuted |
| `Sorting.InsertionSort` | src/sort/src/lib.rs:38-58 | the array ends sorted and is a permutation of its input |
| `Sorting.SelectionSort` | src/sort/src/lib.rs:60-79 | the array ends sorted and is a permutation of its input |
| `Sorting.Partition` | src/sort/src/lib.rs:97-113 | the returned index holds the old last element; the slice is partitioned there (smaller before it, at least as large after) and permuted; the array outside the slice is unchanged |
| `Sorting.QuickSortStep` | src/sort/src/lib.rs:92-94 | a slice partitioned at p whose two sides are then sorted in place is sorted, and a permutation of the partitioned slice |
| `Sorting.QuickSortPart` | src/sort/src/lib.rs:85-95 | the slice ends sorted and permuted; the array outside it is untouched |
| `Sorting.QuickSort` | src/sort/src/lib.rs:81-83 | the array ends sorted and is a permutation of its input |
| `Sorting.SelectRightStep` | src/sort/src/lib.rs:125-126 | recursing right of the pivot with n-p-1 finds the n-th smallest of the slice, and keeps it permuted |
| `Sorting.SelectLeftStep` | src/sort/src/lib.rs:127-128 | recursing left of the pivot with n finds the n-th smallest of the slice, and keeps it permuted |
| `Sorting.SmallestNPart` | src/sort/src/lib.rs:115-130 | None exactly when n is 0 or exceeds the slice length; otherwise the n-th smallest of the slice as it was on entry; the slice is permuted and the rest untouched |
| `Sorting.SmallestN` | src/sort/src/lib.rs:115-130 | None exactly when n is 0 or exceeds the length; otherwise the n-th smallest element of the input; the array is permuted |
| `SortScenarios.SortedIsOneToFive` | src/sort/src/lib.rs:137-145 | any sorted permutation of [4,3,5,1,2] or of [5,4,3,2,1] is [1,2,3,4,5] |
| `SortScenarios.BubbleSortOneToFive` | src/sort/src/lib.rs:137-145 | `bubble_sort` on either test input leaves [1,2,3,4,5] |
| `SortScenarios.InsertionSortOneToFive` | src/sort/src/lib.rs:148-156 | `insertion_sort` on either test input leaves [1,2,3,4,5] |
| `SortScenarios.SelectionSortOneToFive` | src/sort/src/lib.rs:159-167 | `selection_sort` on either test input leaves [1,2,3,4,5] |
| `SortScenarios.QuickSortOneToFive` | src/sort/src/lib.rs:170-178 | `quick_sort` on either test input leaves [1,2,3,4,5] |
| `SortScenarios.BubbleSortScenario` | src/sort/src/lib.rs:137-145 | both test inputs sort to [1,2,3,4,5] |
| `SortScenarios.InsertionSortScenario` | src/sort/src/lib.rs:148-156 | both test inputs sort to [1,2,3,4,5] |
| `SortScenarios.SelectionSortScenario` | src/sort/src/lib.rs:159-167 | both test inputs sort to [1,2,3,4,5] |
| `SortScenarios.QuickSortScenario` | src/sort/src/lib.rs:170-178 | both test inputs sort to [1,2,3,4,5] |
| `SortScenarios.QueryOneToFive` | src/sort/src/lib.rs:181-190 | on any permutation of 1..5, `smallest_n` answers n for n in 1..5 and None otherwise, and leaves a permutation of 1..5 |
| `SortScenarios.SmallestNScenario` | src/sort/src/lib.rs:181-190 | successive queries 0..6 on [4,3,5,1,2] give None, 1, 2, 3, 4, 5, None |
| `BinarySearch.RotationIsCycled` | src/binary_search/src/lib.rs:226-244 | moving the first k elements of a strictly increasing sequence to its end gives a cycled slice |
| `BinarySearch.Search` | src/binary_search/src/lib.rs:34-52 | on a sorted slice: a returned index holds `v`, and None exactly when `v` does not occur |
| `BinarySearch.SearchFirst` | src/binary_search/src/lib.rs:73-95 | a returned index holds `v` and no earlier index does; None exactly when `v` does not occur |
| `BinarySearch.SearchLast` | src/binary_search/src/lib.rs:116-138 | a returned index holds `v` and no later index does; None exactly when `v` does not occur |
| `BinarySearch.SearchFirstAtLeast` | src/binary_search/src/lib.rs:161-181 | a returned index holds a value at least `v`, and every earlier value is smaller; None exactly when every value is smaller than `v` |
| `BinarySearch.SearchLastAtMost` | src/binary_search/src/lib.rs:204-224 | a returned index holds a value at most `v`, and every later value is larger; None exactly when every value is larger than `v` |
| `BinarySearch.SearchCycled` | src/binary_search/src/lib.rs:245-274 | on a rotated strictly increasing slice: a returned index holds `v`, and None exactly when `v` does not occur |
| `BinarySearchScenarios.SearchOneToNine` | src/binary_search/src/lib.rs:30-32 | on 1..9, `v` is found at index v-1, and nothing outside 1..9 is found |
| `BinarySearchScenarios.SearchScenario` | src/binary_search/src/lib.rs:281-294 | queries 0..10 give None, 0..8, None |
| `BinarySearchScenarios.FirstInRepeated` | src/binary_search/src/lib.rs:297-310 | on the slice with repeats, each query gives the expected first index |
| `BinarySearchScenarios.SearchFirstScenario` | src/binary_search/src/lib.rs:297-310 | the eleven expected answers of `test_binary_search_first` |
| `BinarySearchScenarios.LastInRepeated` | src/binary_search/src/lib.rs:313-326 | on the slice with repeats, each query gives the expected last index |
| `BinarySearchScenarios.SearchLastScenario` | src/binary_search/src/lib.rs:313-326 | the eleven expected answers of `test_binary_search_last` |
| `BinarySearchScenarios.FirstAtLeastWithGaps` | src/binary_search/src/lib.rs:329-342 | on the slice with repeats and gaps, each query gives the expected first index holding a value at least `v` |
| `BinarySearchScenarios.SearchFirstAtLeastScenario` | src/binary_search/src/lib.rs:329-342 | the eleven expected answers of `test_binary_search_first_gte` |
| `BinarySearchScenarios.LastAtMostWithGaps` | src/binary_search/src/lib.rs:345-358 | each query gives the expected last index holding a value at most `v` |
| `BinarySearchScenarios.SearchLastAtMostScenario` | src/binary_search/src/lib.rs:345-358 | the eleven expected answers of `test_binary_search_last_lte` |
| `BinarySearchScenarios.OneToNineRotated` | src/binary_search/src/lib.rs:361-422 | each cycled test slice is 1..9 rotated, hence cycled |
| `BinarySearchScenarios.CycledUnrotated` | src/binary_search/src/lib.rs:361-374 | on the unrotated slice each query gives its expected index |
| `BinarySearchScenarios.SearchCycledScenario1` | src/binary_search/src/lib.rs:361-374 | the eleven expected answers of `test_binary_search_cycled_1` |
| `BinarySearchScenarios.CycledAtFive` | src/binary_search/src/lib.rs:377-390 | on [5..9, 1..4] each query gives its expected index |
| `BinarySearchScenarios.SearchCycledScenario2` | src/binary_search/src/lib.rs:377-390 | the eleven expected answers of `test_binary_search_cycled_2` |
| `BinarySearchScenarios.CycledAtOne` | src/binary_search/src/lib.rs:393-406 | on [9, 1..8] each query gives its expected index |
| `BinarySearchScenarios.SearchCycledScenario3` | src/binary_search/src/lib.rs:393-406 | the eleven expected answers of `test_binary_search_cycled_3` |
| `BinarySearchScenarios.CycledAtEight` | src/binary_search/src/lib.rs:409-422 | on [2..9, 1] each query gives its expected index |
| `BinarySearchScenarios.SearchCycledScenario4` | src/binary_search/src/lib.rs:409-422 | the eleven expected answers of `test_binary_search_cycled_4` |
| `BinarySearchScenarios.EmptySliceScenario` | src/binary_search/src/lib.rs:34-52 | every variant answers None on an empty slice, whose window `[0, -1]` is never entered |
| `TwoSums.MatchedFlags` | src/two_sum/src/lib.rs:21-29 | one flag per index of the prefix |
| `TwoSums.MatchedFlagsPrefix` | src/two_sum/src/lib.rs:21-29 | the flags of a prefix agree with those of any longer prefix |
| `TwoSums.MatchedIff` | src/two_sum/src/lib.rs:21-29 | index i is matched exactly when an earlier unmatched index holds `target - nums[i]` |
| `TwoSums.MatchedByMap` | src/two_sum/src/lib.rs:22-23 | with the map built so far, `contains_key(diff)` holds exactly when index i is matched |
| `TwoSums.MatchedKeepsMap` | src/two_sum/src/lib.rs:23-25 | a matched index leaves the map's invariant intact, with the map unchanged |
| `TwoSums.UnmatchedEntersMap` | src/two_sum/src/lib.rs:26-27 | inserting an unmatched index, overwriting any earlier entry for its value, keeps the map's invariant |
| `TwoSums.MatchedExtendsReport` | src/two_sum/src/lib.rs:23-25 | pushing `(map[diff], i)` for a matched i extends the report to the first i+1 indices |
| `TwoSums.MatchedExtendsPairs` | src/two_sum/src/lib.rs:23-25 | the pushed pair sums to the target, pairs an unmatched index with the latest such one holding its value, and comes after all earlier pairs |
| `TwoSums.UnmatchedKeepsReport` | src/two_sum/src/lib.rs:26-27 | an unmatched index adds no pair |
| `TwoSums.TwoSum` | src/two_sum/src/lib.rs:17-32 | every reported pair (j, i) has j < i and `nums[j] + nums[i] == target`; the pairs come in increasing i; i is reported exactly when it is matched; j is unmatched and is the latest unmatched index holding its value before i; at most one pair per index |
| `TwoSumScenarios.SinglePair` | src/two_sum/src/lib.rs:17-32 | when only index i is matched and only j before it completes the target, the result is exactly [(j, i)] |
| `TwoSumScenarios.TwoPairs` | src/two_sum/src/lib.rs:17-32 | pairs with strictly increasing seconds drawn from {i, j}, both present, are exactly two, in order |
| `TwoSumScenarios.NineScenario` | src/two_sum/src/lib.rs:40 | [2,7,11,15] with target 9 gives [(0,1)] |
| `TwoSumScenarios.ThirteenScenario` | src/two_sum/src/lib.rs:41 | target 13 gives [(0,2)] |
| `TwoSumScenarios.EighteenScenario` | src/two_sum/src/lib.rs:42 | target 18 gives [(1,2)] |
| `TwoSumScenarios.TwoPairsScenario` | src/two_sum/src/lib.rs:43-46 | [2,7,4,5] with target 9 gives [(0,1),(2,3)] |

## Left out

- `LinkedLists.LinkedList.ForEachMut`: `iter_mut` hands out `&mut T` references. Dafny has no such references, so the model applies an update function `f` to each element in place, in order. A caller that changes elements non-uniformly (using the enumeration index) is not modelled. The `IterMut` struct and its `next` (linked_list.rs:193-209) are covered only through this method.
- The adapters' `LinkedIter` wrappers (stack/queue/bag `lib.rs`) only forward `next` to the list's `Iter`. The adapters' `Iter` methods return the list's `Iter` directly.
- `Drop for LinkedList` (linked_list.rs:169-173) only calls `clear` to free memory. Deallocation is not modelled, and `clear` itself is.
- `RawPtr`, `Box`, `mem::replace` and unsafe dereferences are modelled as nullable Dafny references. Lifetimes and ownership are not modelled. `Valid()` states instead that the nodes are distinct and linked consistently.
- Element types: every generic `T: PartialOrd` becomes `int`, so there is no NaN or other partial order. The list and adapters stay generic in `T`.
- Integer widths: `usize` and `i32` are unbounded `int`/`nat`, so overflow is not modelled. This covers `size` at `usize::MAX`, the `as i32` casts in the binary searches and insertion sort (slices longer than `i32::MAX`), and `target - nums[i]` overflowing in two-sum. `(high - low) >> 1` on non-negative values is written `/ 2`.
- `HashMap` is a Dafny `map`, so hashing and capacity are not modelled.
- Panics the source cannot reach under its own calls are excluded by preconditions. `partition` needs a non-empty slice (`0 <= lo < hi`); both callers guarantee it.
- `Sorting.BubblePass`: the inner `for` loop of `bubble_sort` is its own method, and the outer loop ends with `return` where the source uses `break`. Nothing follows the loop in either, so the behaviour is the same. Likewise, `Sorting.ShiftGreater` and `Sorting.Insert` split the body of `insertion_sort`'s outer loop.
- `BinarySearch.Search` and `BinarySearch.SearchCycled` carry only the preconditions the proofs need. Search needs `Sorted`; the doc comment asks for unique values, which the model does not need. SearchCycled needs a rotation of a strictly increasing sequence.
- Slice indices: a Rust sub-slice `&mut a[lo..hi]` is the index range `[lo, hi)` of one array, with absolute indices. `partition` returns a position relative to its sub-slice; the model returns `lo` plus that position.

## Findings

| source | as written | input that shows it | evidently intended | confidence | as-written member | corrected member |
|---|---|---|---|---|---|---|
| src/list/src/linked_list.rs:155 | `pop_front` promotes `head.next` to head without clearing its `prev`, which keeps pointing at the node just freed | `push_back(1); push_back(2); pop_front()`: the remaining node's `prev` is the node `pop_front` just freed. A following `pop_back` takes the `Some(prev)` branch (line 142) and reads and writes that freed node (lines 143-144), which is undefined behaviour. Only if that memory is untouched does it return None, with `size` 0 and `head` still set. The model exhibits only the stale `prev` and the broken `Valid()` | the promoted node's `prev` is reset to none, so `pop_back` on a one-element list takes the `None` branch and returns its element | not executed | `LinkedLists.LinkedList.PopFrontAsWritten`, `LinkedListScenarios.StalePrevScenario` | `LinkedLists.LinkedList.PopFront`, `LinkedListScenarios.RepairedPopFrontScenario` |
