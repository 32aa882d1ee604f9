# lab0-c queue and list timsort, modelled in Dafny

This project models the two core pieces of lab0-c:

- **The string queue of `queue.c`.** It is an intrusive circular doubly-linked list with a sentinel head. It supports insertion and removal at both ends, with a bounded copy-out of the removed string. It also supports size, delete-middle, pairwise swap, reverse, a two-list merge, a recursive merge sort, and the `q_ascend`/`q_descend` filters.
- **The list sort of `timsort.c`.** It does the following:
  - cuts the circle into a NULL-terminated chain;
  - splits the chain into runs, reversing strictly descending ones in place;
  - keeps the runs on a stack balanced by `merge_collapse`;
  - force-collapses the stack to at most two runs;
  - merges those last runs back into a circular list while rebuilding every `prev` link.

All nodes live in one store, the class `Links.Heap`:

- `next` and `prev` are sequences of node ids, with `Nil` standing for NULL;
- `val` maps each element node to its string;
- a string is a sequence of non-NUL bytes, compared as `strcmp` does (sign only, `CString.StrCmp`).

Each operation is a method that relinks that store in place. Its contract states the new order of the queue as a ghost sequence of node ids (`IsQueue(h, s)`): each node's `next` and `prev` point to its neighbours in `s`, closing the circle through the head `h`. Every method also states that no node outside the lists it was given changes its links (`Preserves`). The sequence-level meaning of each operation is proved about pure functions on those orders:

- `Without` and `Insert` for removal and insertion;
- `Reverse` and `SwapPairs` for the reorderings;
- `Merge` for the two-list merge;
- `MergeSortOrder` for the sorts;
- `Survivors` for the ascend/descend filters.

Stability is stated over node identity: for every string `k`, the nodes carrying `k` appear in the same order before and after (`Sorting.Stable`). Both `merge_sort` and `timsort` are proved to leave exactly `MergeSortOrder` of their input. So the two sorts produce the same order on every input. That order is the unique stable sort (`Sorting.StableSortIsMergeSortOrder`).

Modules:

- `CString`: strcmp and the bounded copy-out;
- `NodeSeq`: node orders and the functions above;
- `Sorting`: orderings, merge, stable sort and the ascend/descend survivors;
- `Links`: the node store, the ring and chain predicates, and the `list.h` primitives as `Heap` methods;
- `Queue`: `queue.c`;
- `TimSort`: `timsort.c`.

In `timsort.c` the pending-run stack is threaded through `prev` fields, each run's length is stored in a `prev` field through a pointer cast, and `stk_size` is a global. The model instead keeps the stack as an explicit `seq<Run>` of (first node, length) entries, and `stk_size` is its length. The invariant `TimSort.Stacked` says three things:

- the k-th entry is a chain holding the stable sort of the k-th consecutive segment of the input;
- its first node is the entry's head;
- its stored length is the segment's length.

Two details of the code that the model keeps:

- `q_merge_two` takes list2's node on equal strings, because list1's node is taken only when `strcmp` is negative. `merge_sort` passes the left half as list2, so the sort is stable.
- `merge_collapse` also tests the fourth run from the top, and it merges below the top when the third run is shorter than the top one.

## Model

| member | source | states |
|---|---|---|
| CString.StrCmp | queue.c:167-169 | strcmp's result is reduced to its sign: -1, 0 or 1 |
| CString.StrCmpZero | queue.c:167-169 | strcmp is 0 exactly when the two strings are equal |
| CString.StrCmpFlip | timsort.c:52 | swapping the arguments negates strcmp |
| CString.StrCmpTrans | timsort.c:52 | strcmp's order is transitive; the result is strict when either step is |
| CString.Truncated | queue.c:73-77 | the copied prefix is shorter than bufsize and is a prefix of the value; it is the whole value or exactly bufsize - 1 characters |
| CString.CopyOut | queue.c:73-77 | sp receives the truncated value followed by a NUL byte; bytes after it are untouched |
| NodeSeq.Without | queue.c:72 | removing position i keeps every other node in its order |
| NodeSeq.Insert | queue.c:54 | inserting at position j shifts the later nodes by one |
| NodeSeq.WithoutEnds | queue.c:67-87 | removing the first or the last node leaves s[1..] or s[..\|s\|-1] |
| NodeSeq.WithoutDrops | queue.c:114-116 | the removed node is no longer in the queue |
| NodeSeq.InsertEnds | queue.c:39-64 | inserting at the front or at the back yields [x] + s or s + [x] |
| NodeSeq.Reverse | queue.c:143-151 | the i-th node of the result is the i-th from the end of the input |
| NodeSeq.ReverseTwice | queue.c:143-151 | reversing twice restores the order |
| NodeSeq.ReversePerm | queue.c:143-151 | reversal keeps the same nodes |
| NodeSeq.SwapPairs | queue.c:128-140 | each node moves to its pair partner: positions (1,2), (3,4), ... swap, and an odd last node stays |
| NodeSeq.SwapPairsTwice | queue.c:128-140 | swapping pairs twice restores the order |
| NodeSeq.SwapPairsPerm | queue.c:128-140 | swapping pairs keeps the same nodes |
| Sorting.LeTrans | queue.c:167-170 | the strcmp order on nodes is transitive |
| Sorting.Merge | queue.c:159-177 | the merge holds as many nodes as both inputs together |
| Sorting.MergeTakeSecond | queue.c:169-170 | when the second list's first string is strictly smaller, its node comes first |
| Sorting.MergePerm | timsort.c:42-72 | the merge holds exactly the nodes of both inputs |
| Sorting.MergeSorted | timsort.c:42-72 | merging two non-decreasing orders gives a non-decreasing order |
| Sorting.MergeWithKey | timsort.c:51-52 | for every string, its nodes in the merge are those of the first input, then those of the second |
| Sorting.MergeIsStableSort | timsort.c:42-72 | merging two sorted orders gives the stable sort of their concatenation |
| Sorting.StablePerm | queue.c:179-200 | a stable reordering holds the same nodes |
| Sorting.StableSortUnique | queue.c:179-200 | two sorted orders that are stable with respect to each other are equal |
| Sorting.MergeSortOrder | queue.c:179-191 | the merge sort order holds exactly the input's nodes |
| Sorting.MergeSortIsStableSort | queue.c:179-191 | the merge sort order is non-decreasing and stable |
| Sorting.StableSortIsMergeSortOrder | timsort.c:209-243 | any stable sort of an order is its merge sort order |
| Sorting.MergeSortOrderConcat | timsort.c:163-172 | merging the sorted orders of two adjacent segments gives the sorted order of their concatenation |
| Sorting.SortSortedIsIdentity | queue.c:194-200 | sorting an already sorted order changes nothing |
| Sorting.ReverseSorted | queue.c:194-200 | an order is non-decreasing exactly when its reversal is non-increasing |
| Sorting.StrictlyDescReversed | timsort.c:135-148 | reversing a strictly descending run gives its stable sort |
| Sorting.Survivors | queue.c:204-234 | the kept nodes are no more than the input's and each is one of its nodes |
| Sorting.SurvivorIndices | queue.c:204-234 | the kept nodes are a sub-order of the input: the k-th one stands at input position idx[k], and these positions strictly increase |
| Sorting.SurvivorsOrdered | queue.c:204-234 | the kept nodes are non-decreasing for ascend and non-increasing for descend |
| Sorting.SurvivorsKeepLast | queue.c:204-234 | a non-empty queue always keeps its last node |
| Sorting.SurvivorsExactly | queue.c:202-234 | a node is kept exactly when it is <= (ascend) or >= (descend) every node to its right |
| Links.QueueEmpty | queue.c:70 | list_empty holds exactly when the queue order is empty |
| Links.Heap.NewNode | queue.c:163-164 | a fresh node with a self-linked ring and no other change |
| Links.Heap.Del | queue.c:72 | list_del unlinks the node: its neighbours point to each other and the order loses it |
| Links.Heap.Add | queue.c:54 | list_add links the node after `at`: the order gains it at that position |
| Links.Heap.Move | queue.c:137 | list_move takes the node out and re-inserts it after `at` |
| Links.Heap.MoveTail | queue.c:171 | list_move_tail moves the node to the end of another queue |
| Links.Heap.SpliceTailInit | queue.c:174-175 | list_splice_tail_init appends one queue to another and leaves the first empty |
| Links.Heap.Splice | queue.c:176 | list_splice puts one queue's nodes in front of another's |
| Links.Heap.CutPosition | queue.c:187 | list_cut_position moves the first m nodes onto a new head and leaves the rest |
| Queue.Middle | queue.c:110 | the removed index leaves as many or one more nodes after it than before |
| Queue.New | queue.c:15-24 | q_new: NULL when allocation fails, otherwise a fresh empty queue and nothing else changed |
| Queue.InsertHead | queue.c:39-56 | q_insert_head: false and no change for NULL or a failed allocation; otherwise true, and a fresh node with a copy of the string is inserted after the given node (first in the queue when that node is the head) |
| Queue.InsertTail | queue.c:58-64 | q_insert_tail: false and no change for NULL or a failed allocation; otherwise true, and the order becomes s + [x] |
| Queue.RemoveHead | queue.c:67-80 | q_remove_head: NULL and no change for NULL or empty; otherwise returns the first element, the order loses it, and sp receives its truncated copy |
| Queue.RemoveTail | queue.c:82-88 | q_remove_tail: NULL and no change for NULL or empty; otherwise returns the last element, the order becomes s[..\|s\|-1], and sp receives its truncated copy |
| Queue.Size | queue.c:90-101 | q_size: 0 for NULL, otherwise the number of elements |
| Queue.DeleteMid | queue.c:104-118 | q_delete_mid: false and no change for NULL or empty; otherwise true and exactly the element at 1-based position ceil(n/2) is removed |
| Queue.Swap | queue.c:128-140 | q_swap: the order becomes SwapPairs of the old one; nothing changes for NULL or empty |
| Queue.Reverse | queue.c:143-151 | q_reverse: the order becomes its reversal; nothing changes for NULL or empty |
| Queue.MergeTwo | queue.c:159-177 | q_merge_two: list1 holds the merge of both lists, list2's element first on equal strings, and list2 is empty; nothing changes for NULL |
| Queue.MergeSort | queue.c:179-191 | merge_sort: the order becomes its stable sort; lists shorter than two are untouched |
| Queue.Sort | queue.c:194-200 | q_sort: the stable sort, reversed when descend is set |
| Queue.Sweep | queue.c:204-234 | the right-to-left sweep keeps exactly the survivors and returns their number |
| Queue.Ascend | queue.c:204-217 | q_ascend keeps the nodes <= everything to their right and returns the new size |
| Queue.Descend | queue.c:221-234 | q_descend keeps the nodes >= everything to their right and returns the new size |
| TimSort.TimCompare | timsort.c:11-23 | tim_compare returns -1, 0 or 1: 0 for NULL or the same node, otherwise strcmp's sign |
| TimSort.TimCompareFlip | timsort.c:11-23 | swapping the arguments negates tim_compare |
| TimSort.TimCompareZero | timsort.c:11-23 | two distinct nodes compare equal exactly when their strings are equal, and <= 0 exactly when in order |
| TimSort.RunSizeCounts | timsort.c:26-34 | run_size returns the run's node count when the stored length is right, including the single-node case |
| TimSort.RunLength | timsort.c:123-161 | find_run consumes at least two nodes, or one when only one is left |
| TimSort.RunOrderSorts | timsort.c:135-156 | the run left by find_run is the stable sort of the prefix it consumed |
| TimSort.RunLengthMaximal | timsort.c:147-154 | the run cannot be extended: the next node would break it |
| TimSort.FindRun | timsort.c:123-161 | find_run: the consumed prefix becomes its own chain in run order, and the returned length and next node are right |
| TimSort.FindDescending | timsort.c:135-148 | the descending branch reverses the strictly descending prefix in place |
| TimSort.FindAscending | timsort.c:149-156 | the ascending branch cuts the non-decreasing prefix off |
| TimSort.MergeChains | timsort.c:42-72 | merge: NULL and no change for NULL or identical inputs; otherwise one chain in Merge order (the first input's node first on ties) |
| TimSort.BuildPrevLink | timsort.c:74-88 | build_prev_link appends the chain and closes the circle with right prev links |
| TimSort.MergeFinal | timsort.c:90-121 | merge_final: no change for NULL or identical runs; otherwise the head's queue is Merge of the two runs with every link restored |
| TimSort.StackedSum | timsort.c:220-228 | the stored run lengths add up to the number of nodes consumed |
| TimSort.StackPush | timsort.c:222-226 | pushing the run found by find_run keeps the stack invariant |
| TimSort.StackMerge | timsort.c:163-172 | replacing two adjacent runs by their merge keeps the stack invariant |
| TimSort.MergeAt | timsort.c:163-172 | merge_at: the two runs become one with the summed length, the others stay, and the stack shrinks by one |
| TimSort.MergeCollapse | timsort.c:186-207 | merge_collapse keeps the stack invariant and ends with the size inequalities |
| TimSort.MergeForceCollapse | timsort.c:174-184 | merge_force_collapse keeps the stack invariant and ends with at most two runs |
| TimSort.FinalMerge | timsort.c:234-242 | one run is linked back with build_prev_link, two are merged with merge_final; the queue holds the sorted order |
| TimSort.Timsort | timsort.c:209-243 | timsort leaves the circular queue in the stable sort of its order, and no node outside it changes |

## Left out

- Allocation failure is a boolean parameter (`allocFails`) of `New`, `InsertHead` and `InsertTail`. A failed `strdup` and a failed `malloc` look the same to the caller, so one flag stands for both.
- Freeing (`q_free`, `q_release_element`, the `free` calls) is not modelled: released nodes stay in the store, unlinked.
- `q_delete_dup`, `q_reverseK` and `q_merge` are stubs that only return a constant, so they are not modelled.
- The `list.h` macros are modelled by their effect as `Links.Heap` methods. Their text is not part of this model, and neither is `container_of`.
- `timsort.h` only declares the entry points and is not modelled.
- `TimSort.FindRun`, `TimSort.MergeAt`: the writes of a run's stack link and stored length into `prev` fields are not modelled. The stack and the lengths are explicit, and these methods leave `prev` unchanged. `timsort` rebuilds every `prev` link at the end, and `TimSort.Timsort` states the resulting `prev` links in full.
- The `while (stk1 && stk1->prev)` walk for `stk0`/`stk1` in `timsort` is modelled by branching on the stack height. After the force collapse the stack holds one or two runs, so the walk does nothing.
- `TimSort.MergeCollapse`, `TimSort.MergeForceCollapse`: each loop pass makes one `merge_at` call, chosen by the same run-size tests as the source. The `tp->prev = merge_at(tp->prev)` and `tp = merge_at(tp)` forms both become a merge at a stack index.
- `return 0;` inside the void `merge_final` is read as a plain `return`.
- Integer widths: `size_t` run lengths and the `int` size and middle index are unbounded integers. No overflow is modelled.
- `CString.CopyOut`, `Queue.RemoveHead`, `Queue.RemoveTail` require `bufsize >= 1` whenever `sp` is given. With `bufsize == 0` the source still writes the terminating NUL into the caller's buffer.
- `Queue.Ascend`, `Queue.Descend`, `Queue.Sweep` require a non-NULL head. The source dereferences `head` without checking it.
- `TimSort.Timsort` requires a real queue head. The source dereferences `head` without checking it.
- `q_merge_two`'s `tmp_head` and `merge_sort`'s `left` are stack locals in the source. Here they are fresh nodes appended to the store.
