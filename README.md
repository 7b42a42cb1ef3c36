# Sequential data structures of datastructuresforjava, in Dafny

This project models the sequential core of the Java library `datastructuresforjava`:

- the range-based merge sort `MergeSort`;
- the singly linked `List`;
- the linked FIFO `Queue`;
- the chained hash set `ChainedHashTable`;
- the chained key/value map `ChainedHashMap`;
- the linked `BinaryTree` with its four traversals.

The threaded sorters and the lock-striped table of the library only call this core.

Each Java class becomes a Dafny module:

| module | file | Java class |
|---|---|---|
| `Sorting` | `merge_sort.dfy` | `MergeSort` |
| `Lists` | `linked_list.dfy` | `List` |
| `Queues` | `queue.dfy` | `Queue` |
| `HashTable` | `chained_hash_table.dfy` | `ChainedHashTable` |
| `HashMap` | `chained_hash_map.dfy` | `ChainedHashMap` |
| `Trees` | `binary_tree.dfy` | `BinaryTree` |

Three support modules sit beside them:

- `JavaInt` (`java_int.dfy`) holds Java's 32-bit `int`, its wrapping `+`, and its truncating `/` and `%`. It also holds `Math.abs`, which overflows at `Integer.MIN_VALUE`.
- `Hashing` (`hashing.dfy`) holds the bucket index `abs(hashCode) % buckets` and the multiset of everything in an array of buckets.
- `Wrappers` (`wrappers.dfy`) holds `Option`. It stands for a Java result that may be `null`, or for an operation that throws on an empty structure.

How each structure is modelled:

- **Merge sort.** `MergeSort.merge` and `MergeSort.mergeSort` work in place on an `array`.
  - The methods keep that form: `Sorting.Merge` has the three index loops, and `Sorting.MergeSortRange` is the recursion.
  - Each method is proved to leave the array equal to a function of its old contents.
  - The functions are `MergeSeq` and `MergeSortSeq` on sequences. The lemmas prove that these functions permute, sort, and keep ties in their original order.
  - `compareTo(a, b) <= 0` is the parameter `le`. Sortedness and stability assume that `le` is a total preorder.
- **List and Queue.** Both are classes over linked `Node` objects.
  - Each has a ghost node sequence, a ghost element sequence `contents` and a ghost footprint `Repr`.
  - `Valid()` ties `head`, `tail`, `size` and the `next` links to those sequences.
  - Java's `equals` on list elements is a key projection `key`: two elements are equal exactly when their keys are.
  - `lookup`, `contains` and `remove` are proved against first-match functions on sequences: `Find`, `Has` and `RemoveFirst`.
- **Hash table and hash map.** Each is a class with a fixed `array` of buckets.
  - A bucket is the element sequence of a `List`.
  - The table's invariant:
    - every element sits in the bucket of its own index;
    - `size` is the total bucket length.
  - The map's invariant:
    - each key has at most one entry;
    - the buckets represent a ghost `map` `mapping`;
    - `size` is the number of keys.
- **Binary tree.** The tree is a value of the datatype `Tree`.
  - A `TreeNode` reference passed to the tree is the path of links from the root (`Option<Path>`, with `None` for Java's `null`).
  - Insertions and removals are stated with `Graft` (replace the subtree at a path) and `Subtree`.
  - The in-order, pre-order and post-order traversals append into a `Lists.List`. They are proved equal to the recursive functions `InOrder`, `PreOrder` and `PostOrder`.
  - The level-order traversal runs a loop over a `Queues.Queue`. It is proved equal to `LevelOrder`, a breadth-first function over a forest. `LevelOrder` is proved equal to the concatenation of the tree's levels.

## Model

| member | source | states |
|---|---|---|
| JavaInt.Wrap32 | src/main/java/com/datastructures/algorithms/MergeSort.java:37 | Java's 32-bit `+` is congruent to the true sum modulo 2^32 and equals it when the sum fits in an `int` |
| JavaInt.JavaDiv | src/main/java/com/datastructures/algorithms/MergeSort.java:37 | Java's `/` by a positive divisor truncates toward zero: its magnitude is `abs(a) / n` and its sign follows the dividend |
| JavaInt.JavaRem | src/main/java/com/datastructures/algorithms/ChainedHashTable.java:61 | Java's `%`: `a == n * (a / n) + a % n`, and the remainder lies in `[0, n)` for `a >= 0` and in `(-n, 0]` for `a < 0` |
| JavaInt.JavaAbs | src/main/java/com/datastructures/algorithms/ChainedHashTable.java:61 | `Math.abs` is the true absolute value except at `Integer.MIN_VALUE`, where the result is `Integer.MIN_VALUE` itself |
| Hashing.BucketIndex | src/main/java/com/datastructures/algorithms/ChainedHashTable.java:59-62 | the intended bucket index `abs(hash) % buckets` always lies in `[0, buckets)` |
| Hashing.AsWrittenAgreesBelowOverflow | src/main/java/com/datastructures/algorithms/ChainedHashTable.java:59-62 | for every hash code but `Integer.MIN_VALUE`, the index as the Java code computes it is the intended index |
| Hashing.AsWrittenNegativeAtMinValue | src/main/java/com/datastructures/algorithms/ChainedHashMap.java:180-182 | with hash code `Integer.MIN_VALUE` and 3 buckets, the Java index is -2, which is outside the table |
| Hashing.TotalLength | src/main/java/com/datastructures/algorithms/ChainedHashTable.java:17-36 | the total bucket length, which `size` tracks, is the number of elements held, counted with multiplicity |
| Sorting.MergeSeq | src/main/java/com/datastructures/algorithms/MergeSort.java:58-95 | what `merge` writes has as many elements as the two runs together |
| Sorting.MergeSortSeq | src/main/java/com/datastructures/algorithms/MergeSort.java:35-42 | what `mergeSort` makes of a range has the range's length |
| Sorting.Midpoint | src/main/java/com/datastructures/algorithms/MergeSort.java:36-37 | for `p < r`, the split point `q = (p + r) / 2` satisfies `p <= q < r`, so both halves are smaller than the range |
| Sorting.MidpointAsWrittenAgrees | src/main/java/com/datastructures/algorithms/MergeSort.java:37 | while `p + r` fits in an `int`, the Java midpoint is the intended one |
| Sorting.MidpointAsWrittenOverflows | src/main/java/com/datastructures/algorithms/MergeSort.java:37 | the call `mergeSort(0x3000_0000, 0x5FFF_FFFF)` arises when sorting 0x6000_0000 elements; there the Java midpoint is negative, while the intended one is 0x47FF_FFFF |
| Sorting.MergeStep | src/main/java/com/datastructures/algorithms/MergeSort.java:71-80 | one step of the merge loop takes the left front when `le` holds and the right front otherwise |
| Sorting.MergePermutes | src/main/java/com/datastructures/algorithms/MergeSort.java:63-94 | a merge holds exactly the elements of both runs: the multisets are equal |
| Sorting.MergeSorted | src/main/java/com/datastructures/algorithms/MergeSort.java:58-95 | merging two sorted runs under a total preorder gives a sorted run |
| Sorting.MergeOrderedRuns | src/main/java/com/datastructures/algorithms/MergeSort.java:71-94 | if every left element is `le` every right element, the merge is the left run followed by the right run |
| Sorting.MergeStable | src/main/java/com/datastructures/algorithms/MergeSort.java:72-75 | among elements equal to any `e`, the merge keeps all left-run ones before all right-run ones, each run in its own order |
| Sorting.StableTakeLeft | src/main/java/com/datastructures/algorithms/MergeSort.java:72-75 | when the merge takes the left front on `compareTo <= 0`, the elements equal to `e` still come left run first, then right run |
| Sorting.StableTakeRight | src/main/java/com/datastructures/algorithms/MergeSort.java:72-78 | when the merge takes the right front, the elements equal to `e` still come left run first, given the left run has none equal to `e` whenever that front is |
| Sorting.MergeSortPermutes | src/main/java/com/datastructures/algorithms/MergeSort.java:35-42 | merge sort is a permutation of its input, duplicates included |
| Sorting.MergeSortSorts | src/main/java/com/datastructures/algorithms/MergeSort.java:35-42 | under a total preorder, the result of merge sort is sorted |
| Sorting.MergeSortKeepsSorted | src/main/java/com/datastructures/algorithms/MergeSort.java:35-42 | an already sorted input comes out unchanged |
| Sorting.MergeSortStable | src/main/java/com/datastructures/algorithms/MergeSort.java:35-42 | merge sort is stable: the elements equal to any `e` keep their input order |
| Sorting.SortedPermutationUnique | src/main/java/com/datastructures/algorithms/MergeSort.java:21-26 | under an antisymmetric `le`, two sorted permutations of the same elements are equal, so the sorted result is determined by the input's elements |
| Sorting.SortedByNeighbours | src/test/java/com/datastructures/algorithms/MergeSortTest.java:53-57 | integers whose neighbours are in order are sorted |
| Sorting.SortPair | src/main/java/com/datastructures/algorithms/MergeSort.java:35-42 | two integers are sorted by one comparison, the smaller first |
| Sorting.SortExampleTriple | src/test/java/com/datastructures/algorithms/MergeSortTest.java:53-57 | `{3, 1, 4}` sorts to `{1, 3, 4}` |
| Sorting.SortExampleLeft | src/test/java/com/datastructures/algorithms/MergeSortTest.java:53-57 | the left half `{3, 1, 4, 1, 5}` of the test array sorts to `{1, 1, 3, 4, 5}` |
| Sorting.MergeExampleLeft | src/main/java/com/datastructures/algorithms/MergeSort.java:72-78 | merging the runs `{1, 3, 4}` and `{1, 5}` takes the left `1` before the right one: `{1, 1, 3, 4, 5}` |
| Sorting.SortExampleRight | src/test/java/com/datastructures/algorithms/MergeSortTest.java:53-57 | the right half `{9, 2, 6, 5}` sorts to `{2, 5, 6, 9}` |
| Sorting.MergeExampleHalves | src/main/java/com/datastructures/algorithms/MergeSort.java:72-75 | the last merge of the test array: the left 5 is taken before the right 5 on the tie |
| Sorting.SortKeepsDuplicates | src/test/java/com/datastructures/algorithms/MergeSortTest.java:53-57 | `{3, 1, 4, 1, 5, 9, 2, 6, 5}` sorts to `{1, 1, 2, 3, 4, 5, 5, 6, 9}`, duplicates retained |
| Sorting.MergedRange | src/main/java/com/datastructures/algorithms/MergeSort.java:58-95 | the array after `merge(p, q, r)` has the same length as before |
| Sorting.SortedRange | src/main/java/com/datastructures/algorithms/MergeSort.java:35-42 | the array after `mergeSort(p, r)` has the same length as before |
| Sorting.Merge | src/main/java/com/datastructures/algorithms/MergeSort.java:58-95 | `merge(p, q, r)` replaces `[p, r]` by the merge of the runs `[p, q]` and `[q+1, r]` and leaves every index outside `[p, r]` unchanged |
| Sorting.MergeFronts | src/main/java/com/datastructures/algorithms/MergeSort.java:67-80 | the first loop keeps `k == p + i + j`, `0 <= i <= n1` and `0 <= j <= n2`; it stops when one run is used up, having written the first `i + j` merged elements and nothing else |
| Sorting.CopyRest | src/main/java/com/datastructures/algorithms/MergeSort.java:83-94 | each tail loop copies the rest of its run to `k` onward, ends with `k` past the last element copied, and writes nothing else |
| Sorting.MergeFromIsMergeSeq | src/main/java/com/datastructures/algorithms/MergeSort.java:67-94 | the loops' merge from positions `i`, `j` is the merge of the runs' remaining suffixes |
| Sorting.MergeWritesMergedRange | src/main/java/com/datastructures/algorithms/MergeSort.java:67-94 | once every slot of `[p, r]` is written with the merged sequence and the rest is untouched, the array is the merged range |
| Sorting.SortedRangeSplit | src/main/java/com/datastructures/algorithms/MergeSort.java:36-41 | sorting `[p, r]` is merging the sorted `[p, q]` and `[q+1, r]`, with `q` the midpoint |
| Sorting.SortedRangeSteps | src/main/java/com/datastructures/algorithms/MergeSort.java:36-41 | sorting `[p, q]`, then `[q+1, r]`, then merging gives the sorted range `[p, r]` |
| Sorting.SortedRangeShort | src/main/java/com/datastructures/algorithms/MergeSort.java:36 | a range of at most one element is left as it is |
| Sorting.SortedRangeWhole | src/main/java/com/datastructures/algorithms/MergeSort.java:25 | sorting the range `[0, length - 1]` is sorting the whole array |
| Sorting.MergeSortRange | src/main/java/com/datastructures/algorithms/MergeSort.java:35-42 | `mergeSort(p, r)` replaces `[p, r]` by its sorted form and leaves the rest of the array unchanged |
| Sorting.Sort | src/main/java/com/datastructures/algorithms/MergeSort.java:21-26 | `sort` changes an array of fewer than two elements in no way. Otherwise the array becomes the merge sort of its old contents: a permutation of them, sorted when `compareTo` is a total preorder. A `null` array is accepted and nothing is done |
| Lists.FirstIndex | src/main/java/com/datastructures/algorithms/List.java:41-71 | the position of the first element equal to `k`: no earlier element is equal, and it is equal unless it is the length |
| Lists.Find | src/main/java/com/datastructures/algorithms/List.java:91-96 | the first-match search finds an element exactly when an equal one is present. The element found is equal to the key, is in the list, and has no equal element before it |
| Lists.RemoveFirst | src/main/java/com/datastructures/algorithms/List.java:41-71 | removing the first equal element shortens the list by one when an equal element is present and changes nothing otherwise |
| Lists.RemoveFirstMultiset | src/main/java/com/datastructures/algorithms/List.java:41-71 | the removal takes out exactly the element `lookup` finds |
| Lists.RemoveFirstKeepsOthers | src/main/java/com/datastructures/algorithms/List.java:41-71 | elements not equal to the key keep their multiplicity |
| Lists.RemoveOnlyFirst | src/main/java/com/datastructures/algorithms/List.java:41-71 | after the removal an equal element remains exactly when there were at least two |
| Lists.FindAfterAppend | src/main/java/com/datastructures/algorithms/List.java:24-35 | after appending `x`, a search for `x` finds the earlier equal element if there was one, and `x` otherwise |
| Lists.RemoveUndoesAppend | src/main/java/com/datastructures/algorithms/List.java:24-71 | removing an element just appended with no equal element before it restores the list |
| Lists.FindAfterAppendOther | src/main/java/com/datastructures/algorithms/List.java:24-35 | appending an element leaves searches for other keys unchanged |
| Lists.FirstIndexAt | src/main/java/com/datastructures/algorithms/List.java:91-96 | a position with no equal element before it and an equal element at it is the first-match position |
| Lists.FindAfterReplace | src/main/java/com/datastructures/algorithms/ChainedHashMap.java:85-94 | overwriting the first equal element makes a search for its key find the new one and leaves searches for other keys unchanged |
| Lists.FindCons | src/main/java/com/datastructures/algorithms/List.java:91-96 | a search looks at the head first and then at the rest |
| Lists.RemoveCons | src/main/java/com/datastructures/algorithms/List.java:46-68 | removal takes the head if it is equal and otherwise removes from the rest |
| Lists.FindAfterRemoveOther | src/main/java/com/datastructures/algorithms/ChainedHashMap.java:140-157 | removing the entry of one key leaves searches for other keys unchanged |
| Lists.List.constructor | src/main/java/com/datastructures/algorithms/List.java:15-19 | a new list is empty and valid |
| Lists.List.GetSize | src/main/java/com/datastructures/algorithms/List.java:134-136 | `size` is the number of elements |
| Lists.List.IsEmpty | src/main/java/com/datastructures/algorithms/List.java:138-140 | `isEmpty` holds exactly when there are no elements, which is when `getSize() == 0` |
| Lists.List.InsertNext | src/main/java/com/datastructures/algorithms/List.java:24-35 | `insertNext` appends at the tail: the contents become `old + [data]` and the invariants on `head`, `tail` and `size` are kept |
| Lists.List.Remove | src/main/java/com/datastructures/algorithms/List.java:41-71 | `remove` returns whether an equal element was present and removes only the first one, keeping the order of the rest. Otherwise, including on an empty list, nothing changes |
| Lists.List.RemoveHead | src/main/java/com/datastructures/algorithms/List.java:46-53 | unlinking the head drops the first element, and clears `tail` when the list becomes empty |
| Lists.List.RemoveAfter | src/main/java/com/datastructures/algorithms/List.java:58-66 | unlinking the node after `current` drops that element, and moves `tail` back when it was the last |
| Lists.List.RemoveWithStream | src/main/java/com/datastructures/algorithms/List.java:77-85 | `removeWithStream` has the same result and effect as `remove` |
| Lists.List.Lookup | src/main/java/com/datastructures/algorithms/List.java:91-96 | `lookup` returns the first element equal to `data`, or `None` (`null`) when there is none |
| Lists.List.Contains | src/main/java/com/datastructures/algorithms/List.java:101-103 | `contains` holds exactly when some element is equal to `data` |
| Queues.Queue.constructor | src/main/java/com/datastructures/algorithms/Queue.java:14-18 | a new queue is empty and valid |
| Queues.Queue.IsEmpty | src/main/java/com/datastructures/algorithms/Queue.java:79-81 | `isEmpty` holds exactly when the queue has no elements |
| Queues.Queue.Size | src/main/java/com/datastructures/algorithms/Queue.java:88-90 | `size` is the number of elements |
| Queues.Queue.Peek | src/main/java/com/datastructures/algorithms/Queue.java:66-72 | `peek` returns the front element and changes nothing. It gives `None` exactly when the queue is empty, where Java throws |
| Queues.Queue.Enqueue | src/main/java/com/datastructures/algorithms/Queue.java:25-36 | `enqueue` adds at the rear: the contents become `old + [data]`, keeping `head`, `tail` and `size` consistent |
| Queues.Queue.Dequeue | src/main/java/com/datastructures/algorithms/Queue.java:44-58 | `dequeue` returns the old front and drops it. On an empty queue it returns `None`, where Java throws, and nothing changes. `head`, `tail` and `size` stay consistent, also when the last element leaves |
| Queues.FifoOrder | src/main/java/com/datastructures/algorithms/Queue.java:25-58 | enqueuing a sequence and dequeuing until empty gives the same sequence, in order |
| HashTable.ChainedHashTable.PlacedUpdate | src/main/java/com/datastructures/algorithms/ChainedHashTable.java:17-36 | replacing one bucket by a bucket of elements that all belong there keeps every element in its own bucket |
| HashTable.ChainedHashTable.constructor | src/main/java/com/datastructures/algorithms/ChainedHashTable.java:8-15 | the new table has `buckets` empty buckets, `size` 0 and no elements |
| HashTable.ChainedHashTable.ChainTableLookup | src/main/java/com/datastructures/algorithms/ChainedHashTable.java:59-62 | an element's bucket index is in `[0, buckets)` and is the Java value `Math.abs(hashCode) % buckets` for every hash code but `Integer.MIN_VALUE` |
| HashTable.ChainedHashTable.BucketDecides | src/main/java/com/datastructures/algorithms/ChainedHashTable.java:53-57 | an equal element is in the table exactly when one is in the element's own bucket |
| HashTable.ChainedHashTable.Lookup | src/main/java/com/datastructures/algorithms/ChainedHashTable.java:53-57 | `lookup` finds an element exactly when an equal one is held. What it returns is equal to `data` and is held |
| HashTable.ChainedHashTable.Insert | src/main/java/com/datastructures/algorithms/ChainedHashTable.java:17-21 | `insert` adds `data` to the elements, duplicates included, and keeps `size` equal to the total bucket length. Only `data`'s bucket changes. `lookup(data)` afterwards finds an earlier equal element, or else `data` |
| HashTable.ChainedHashTable.InsertStep | src/main/java/com/datastructures/algorithms/ChainedHashTable.java:17-21 | appending to the element's own bucket keeps all elements placed, lengthens the table by one, and adds exactly that element |
| HashTable.ChainedHashTable.Remove | src/main/java/com/datastructures/algorithms/ChainedHashTable.java:27-36 | `remove` returns whether an equal element was held. Only then does it take out the element `lookup` found, which decrements `size` through the invariant. Other buckets are unchanged |
| HashTable.ChainedHashTable.RemoveWithStream | src/main/java/com/datastructures/algorithms/ChainedHashTable.java:42-51 | `removeWithStream` has the same result and effect as `remove` |
| HashTable.ChainedHashTable.RemoveStep | src/main/java/com/datastructures/algorithms/ChainedHashTable.java:27-36 | removing the first equal element from its bucket keeps all elements placed, shortens the table by one and takes out that element |
| HashTable.ChainedHashTable.HoldsElement | src/main/java/com/datastructures/algorithms/ChainedHashTable.java:53-57 | an equal element is held exactly when an element with the same key is among the elements |
| HashTable.ChainedHashTable.SizeCountsElements | src/main/java/com/datastructures/algorithms/ChainedHashTable.java:17-36 | `size` is the number of elements held |
| HashTable.LookupOwnKey | src/main/java/com/datastructures/algorithms/ChainedHashTable.java:53-57 | when elements are their own keys, `lookup(x)` returns `x` exactly when `x` is held, and `None` otherwise |
| HashTable.CollidingTable | src/test/java/com/datastructures/algorithms/ChainedHashTableTest.java:114-121 | a 3-bucket table after the five insertions holds exactly 0, 3, 6, 1 and 4 |
| HashTable.CollisionScenario | src/test/java/com/datastructures/algorithms/ChainedHashTableTest.java:111-137 | with three colliding elements in one bucket and two in another, all five are found. Removing 3 succeeds, after which 3 is not found while 0 and 6 are |
| HashMap.ValueIn | src/main/java/com/datastructures/algorithms/ChainedHashMap.java:109-118 | a bucket yields a value for a key exactly when it has an entry with that key |
| HashMap.MapGet | src/main/java/com/datastructures/algorithms/ChainedHashMap.java:109-118 | the abstract lookup yields a value exactly when the key is mapped, and that value is the mapped one |
| HashMap.ChainedHashMap.constructor | src/main/java/com/datastructures/algorithms/ChainedHashMap.java:64-71 | the new map has `buckets` empty buckets and represents the empty mapping |
| HashMap.ChainedHashMap.Hash | src/main/java/com/datastructures/algorithms/ChainedHashMap.java:180-182 | a key's bucket index is in `[0, buckets)` and is the Java value for every hash code but `Integer.MIN_VALUE` |
| HashMap.ChainedHashMap.OneEntryPerKey | src/main/java/com/datastructures/algorithms/ChainedHashMap.java:50-55 | two entries with equal keys are the same entry: at most one entry per key across the whole map |
| HashMap.ChainedHashMap.Get | src/main/java/com/datastructures/algorithms/ChainedHashMap.java:109-118 | `get` returns the mapped value, or `None` (`null`) for an unmapped key |
| HashMap.ChainedHashMap.ContainsKey | src/main/java/com/datastructures/algorithms/ChainedHashMap.java:126-132 | `containsKey` holds exactly when the key is mapped, whatever its value |
| HashMap.ChainedHashMap.Size | src/main/java/com/datastructures/algorithms/ChainedHashMap.java:164-166 | `size` is the number of distinct keys mapped |
| HashMap.ChainedHashMap.IsEmpty | src/main/java/com/datastructures/algorithms/ChainedHashMap.java:173-175 | `isEmpty` holds exactly when no key is mapped, which is when `size() == 0` |
| HashMap.ChainedHashMap.Put | src/main/java/com/datastructures/algorithms/ChainedHashMap.java:81-100 | `put` maps `key` to `value` and returns the previous value, or `None` when there was none. It overwrites in place for an existing key and appends an entry for a new key, so `size` grows only for a new key. Only the key's bucket changes |
| HashMap.ChainedHashMap.Remove | src/main/java/com/datastructures/algorithms/ChainedHashMap.java:140-157 | `remove` unmaps `key` and returns its previous value. For an absent key it returns `None` and the mapping is unchanged. Only the key's bucket changes |
| HashMap.ChainedHashMap.RepresentsUpdate | src/main/java/com/datastructures/algorithms/ChainedHashMap.java:81-157 | replacing one bucket keeps the buckets representing the mapping when the new bucket holds the new values for its keys and no other key changes |
| HashMap.ChainedHashMap.BucketOkSameKeys | src/main/java/com/datastructures/algorithms/ChainedHashMap.java:89-92 | overwriting values in place keeps a bucket's keys placed and unique |
| HashMap.ChainedHashMap.BucketOkRemove | src/main/java/com/datastructures/algorithms/ChainedHashMap.java:148-151 | removing an entry keeps a bucket's keys placed and unique |
| HashMap.ChainedHashMap.PutExistingStep | src/main/java/com/datastructures/algorithms/ChainedHashMap.java:85-94 | the first entry with the key holds the mapped value, and overwriting it represents the updated mapping |
| HashMap.ChainedHashMap.PutNewStep | src/main/java/com/datastructures/algorithms/ChainedHashMap.java:96-99 | a key missing from its bucket is unmapped, and appending its entry represents the extended mapping |
| HashMap.ChainedHashMap.RemoveStep | src/main/java/com/datastructures/algorithms/ChainedHashMap.java:140-157 | the entry found holds the mapped value, and removing it represents the mapping without the key |
| Trees.NodeCount | src/main/java/com/datastructures/algorithms/BinaryTree.java:94-104 | `countAndRemoveSubtree` counts zero exactly for an empty subtree |
| Trees.ChildIsPosition | src/main/java/com/datastructures/algorithms/BinaryTree.java:17-21 | both child links of an existing node are positions where a subtree can be attached |
| Trees.GraftAt | src/main/java/com/datastructures/algorithms/BinaryTree.java:7-88 | after setting the link at a position, the subtree there is the one set |
| Trees.GraftCount | src/main/java/com/datastructures/algorithms/BinaryTree.java:50-104 | setting a link changes the node count by the new subtree's count minus the old one's |
| Trees.GraftElsewhere | src/main/java/com/datastructures/algorithms/BinaryTree.java:7-88 | setting one link leaves every subtree that neither contains nor lies inside it unchanged |
| Trees.SubtreeOfNil | src/main/java/com/datastructures/algorithms/BinaryTree.java:94-97 | every link below an empty subtree is empty |
| Trees.InOrderNodes | src/main/java/com/datastructures/algorithms/BinaryTree.java:131-144 | the in-order sequence holds every node's data exactly once: its multiset is the tree's and its length the node count |
| Trees.PreOrderNodes | src/main/java/com/datastructures/algorithms/BinaryTree.java:150-163 | the pre-order sequence holds every node's data exactly once and starts with the root |
| Trees.PostOrderNodes | src/main/java/com/datastructures/algorithms/BinaryTree.java:169-182 | the post-order sequence holds every node's data exactly once and ends with the root |
| Trees.NodeCountElements | src/main/java/com/datastructures/algorithms/BinaryTree.java:94-104 | the node count is the number of data items in the tree |
| Trees.Reverse | src/main/java/com/datastructures/algorithms/BinaryTree.java:131-182 | reversal keeps the length and reads the sequence back to front |
| Trees.ReverseAppend | src/main/java/com/datastructures/algorithms/BinaryTree.java:131-182 | reversing a concatenation concatenates the reversals in swapped order |
| Trees.InOrderMirror | src/main/java/com/datastructures/algorithms/BinaryTree.java:131-144 | in-order visits left before right: mirroring the tree reverses the in-order sequence |
| Trees.PostOrderMirror | src/main/java/com/datastructures/algorithms/BinaryTree.java:150-182 | post-order (left, right, root) is pre-order (root, left, right) of the mirrored tree read backwards |
| Trees.ForestSizeAppend | src/main/java/com/datastructures/algorithms/BinaryTree.java:197-207 | the node count of a queue of subtrees adds up over concatenation |
| Trees.Kids | src/main/java/com/datastructures/algorithms/BinaryTree.java:201-206 | only non-null children are enqueued |
| Trees.KidsSize | src/main/java/com/datastructures/algorithms/BinaryTree.java:199-206 | dequeuing a node and enqueuing its children leaves one node fewer to visit |
| Trees.Bfs | src/main/java/com/datastructures/algorithms/BinaryTree.java:197-207 | breadth-first visiting of a queue of subtrees outputs one item per node |
| Trees.LevelOrder | src/main/java/com/datastructures/algorithms/BinaryTree.java:188-210 | level order has one item per node and starts at the root; an empty tree gives an empty sequence |
| Trees.LevelOrderByLevels | src/main/java/com/datastructures/algorithms/BinaryTree.java:188-210 | level order is the tree's levels, top to bottom and each left to right, concatenated |
| Trees.ForestLevelAppend | src/main/java/com/datastructures/algorithms/BinaryTree.java:197-207 | a level of a concatenated queue is the concatenation of the levels |
| Trees.ForestLevelSingle | src/main/java/com/datastructures/algorithms/BinaryTree.java:197-207 | a level of a one-tree queue is that tree's level |
| Trees.KidsLevel | src/main/java/com/datastructures/algorithms/BinaryTree.java:201-206 | level `n` of a node's enqueued children is level `n + 1` of the node |
| Trees.AllKidsLevel | src/main/java/com/datastructures/algorithms/BinaryTree.java:201-206 | level `n` of all children of a queue is level `n + 1` of the queue |
| Trees.AllKidsLevels | src/main/java/com/datastructures/algorithms/BinaryTree.java:201-206 | levels `lo` to `hi` of all children are levels `lo + 1` to `hi + 1` of the queue |
| Trees.AllKidsHeight | src/main/java/com/datastructures/algorithms/BinaryTree.java:201-206 | the children of subtrees of height at most `h` have height at most `h - 1` |
| Trees.BfsSplit | src/main/java/com/datastructures/algorithms/BinaryTree.java:197-207 | visiting a queue `f + g` outputs the roots of `f`, then visits `g` followed by the children of `f` |
| Trees.BfsCons | src/main/java/com/datastructures/algorithms/BinaryTree.java:197-207 | visiting a queue outputs the front's root, then visits the rest followed by the front's children |
| Trees.BfsOfEmptyTrees | src/main/java/com/datastructures/algorithms/BinaryTree.java:197-207 | a queue of empty subtrees outputs nothing |
| Trees.BfsByLevels | src/main/java/com/datastructures/algorithms/BinaryTree.java:197-207 | the breadth-first output of a queue is its levels, top to bottom, concatenated |
| Trees.BfsVisit | src/main/java/com/datastructures/algorithms/BinaryTree.java:198-206 | one loop iteration keeps `output + visit(queue)` unchanged |
| Trees.AllNodesAfterVisit | src/main/java/com/datastructures/algorithms/BinaryTree.java:201-206 | the queue holds only non-null nodes after each iteration |
| Trees.BfsFront | src/main/java/com/datastructures/algorithms/BinaryTree.java:197-207 | visiting a queue outputs its roots, then visits all their children |
| Trees.SingleTreeLevels | src/main/java/com/datastructures/algorithms/BinaryTree.java:188-210 | the levels of a one-tree queue are that tree's levels |
| Trees.ThreeNodeOrders | src/test/java/com/datastructures/algorithms/BinaryTreeTest.java:30-145 | for root 1 with children 2 and 3: in-order 2,1,3; pre-order 1,2,3; post-order 2,3,1; level order 1,2,3 |
| Trees.SubtreeChild | src/main/java/com/datastructures/algorithms/BinaryTree.java:17-21 | following one more link from a node reaches that node's child |
| Trees.BinaryTree.constructor | src/main/java/com/datastructures/algorithms/BinaryTree.java:3-5 | a new tree is empty with `size` 0 |
| Trees.BinaryTree.GetRoot | src/main/java/com/datastructures/algorithms/BinaryTree.java:27-29 | `getRoot` is `null` exactly for the empty tree and otherwise names the root |
| Trees.BinaryTree.GetSize | src/main/java/com/datastructures/algorithms/BinaryTree.java:115-117 | `getSize` is the number of nodes, the length of the in-order and the level-order traversal |
| Trees.BinaryTree.InsertChild | src/main/java/com/datastructures/algorithms/BinaryTree.java:7-48 | an insertion attaches a new leaf at the link it names when the tree is empty (no node) or the child is missing; `size` then grows by one, and otherwise nothing changes |
| Trees.BinaryTree.InsertLeft | src/main/java/com/datastructures/algorithms/BinaryTree.java:7-25 | `insertLeft` makes a root on an empty tree, or attaches a leaf as a missing left child, adding one to `size`; it does nothing otherwise |
| Trees.BinaryTree.InsertRight | src/main/java/com/datastructures/algorithms/BinaryTree.java:31-48 | `insertRight` makes a root on an empty tree, or attaches a leaf as a missing right child, adding one to `size`; it does nothing otherwise |
| Trees.BinaryTree.RemoveChild | src/main/java/com/datastructures/algorithms/BinaryTree.java:50-88 | a removal on an empty tree does nothing; otherwise it clears the link (the root for no node) and lowers `size` by the removed subtree's node count |
| Trees.BinaryTree.RemoveLeft | src/main/java/com/datastructures/algorithms/BinaryTree.java:50-68 | `removeLeft` detaches the left subtree (or the whole tree) and lowers `size` by its node count |
| Trees.BinaryTree.RemoveRight | src/main/java/com/datastructures/algorithms/BinaryTree.java:70-88 | `removeRight` detaches the right subtree (or the whole tree) and lowers `size` by its node count |
| Trees.BinaryTree.IsLeaf | src/main/java/com/datastructures/algorithms/BinaryTree.java:123-125 | a node is a leaf exactly when its subtree has one node |
| Trees.BinaryTree.InOrderTraversal | src/main/java/com/datastructures/algorithms/BinaryTree.java:131-135 | the returned list is a fresh list holding the in-order sequence |
| Trees.BinaryTree.InOrderHelper | src/main/java/com/datastructures/algorithms/BinaryTree.java:137-144 | the helper appends exactly the in-order sequence of the subtree to the list |
| Trees.BinaryTree.PreOrderTraversal | src/main/java/com/datastructures/algorithms/BinaryTree.java:150-154 | the returned list is a fresh list holding the pre-order sequence |
| Trees.BinaryTree.PreOrderHelper | src/main/java/com/datastructures/algorithms/BinaryTree.java:156-163 | the helper appends exactly the pre-order sequence of the subtree to the list |
| Trees.BinaryTree.PostOrderTraversal | src/main/java/com/datastructures/algorithms/BinaryTree.java:169-173 | the returned list is a fresh list holding the post-order sequence |
| Trees.BinaryTree.PostOrderHelper | src/main/java/com/datastructures/algorithms/BinaryTree.java:175-182 | the helper appends exactly the post-order sequence of the subtree to the list |
| Trees.BinaryTree.LevelOrderTraversal | src/main/java/com/datastructures/algorithms/BinaryTree.java:188-210 | the queue loop returns a fresh list holding the level order, which is empty for an empty tree |
| Trees.VisitFront | src/main/java/com/datastructures/algorithms/BinaryTree.java:198-206 | one iteration dequeues the front node, appends its data to the output and enqueues its non-null children left before right |
| Trees.EnqueueChildren | src/main/java/com/datastructures/algorithms/BinaryTree.java:201-206 | the left child, then the right child, is enqueued when it is not `null` |
| Trees.MergeTree | src/main/java/com/datastructures/algorithms/BinaryTree.java:106-113 | `mergeTree` gives `merge` a new root over `left`'s and `right`'s trees with `size = left.size + right.size + 1`, which is the node count when both sizes were |

## Left out

- The threaded sorters `ThreadedMergeSort` and `VirtualThreadedMergeSort`, and the lock-striped `ThreadedChainedHashTable`. They fork tasks or take locks around calls into the sequential code modelled here. Concurrency, scheduling, timing and debug output are not modelled.
- Java streams, `Spliterator`, the `List` iterator and the `Optional` pipelines. They are modelled by the first-match functions on sequences (`Find`, `Has`, `RemoveFirst`) and by the ghost sequence `contents`, which is the iteration order.
- `hashCode`, `equals` and `compareTo`:
  - They are parameters of the model: `hash`/`hashCode`, the key projection `key` (or Dafny `==` on map keys), and `le` for `compareTo(a, b) <= 0`.
  - Their consistency (equal elements have equal hash codes) holds by construction, because the hash is a function of the key.
  - `Entry.compareTo` is not used by any map operation and is not modelled.
- Java `null`:
  - An absent result is `None`.
  - `null` elements, keys and values are not modelled. So `get` cannot confuse a key mapped to `null` with an absent key, and `put` and `remove` return `None` only for an absent key.
- HashTable.ChainedHashTable and HashMap.ChainedHashMap: each bucket is held as the element sequence of a `List`, in an `array<seq<…>>`, not as a `List` object. The bucket operations use the same sequence functions that `Lists.List` is proved against. Aliasing between buckets is therefore not modelled.
- HashTable.ChainedHashTable.constructor and HashMap.ChainedHashMap.constructor require `buckets > 0`. With 0 buckets the Java `%` throws, and with a negative count `new List[buckets]` throws.
- The `size` counters are unbounded integers. Their 32-bit overflow after 2^31 insertions is not modelled.
- Trees.BinaryTree:
  - The tree is a value, and a `TreeNode` reference is a path from the root.
  - Sharing of nodes between trees is not modelled. In particular, `mergeTree` in Java links the very nodes of `left` and `right` into `merge`, and later changes through either tree show in both.
  - Node references into detached subtrees are not modelled. The insert and remove methods require `node` to name a node of this tree.
  - `GetRoot` returns the empty path, not a node object.
- Trees.MergeTree requires `merge` to differ from `left` and `right`. With `merge == left` (or `merge == right`) the Java code replaces that tree's root before reading it, so the new root becomes its own left (or right) child, the old nodes are lost, and `size` is set to the old sizes plus one. A tree value cannot represent that cycle.
- `setSize` (BinaryTree.java:119-121) writes `size` without regard to the nodes, which would break the invariant `size == node count`. It is not modelled.
- Sorting.Merge and Trees.BinaryTree.LevelOrderTraversal: the loop bodies are factored into helper methods (`MergeFronts`, `CopyRest`, `VisitFront`, `EnqueueChildren`) that keep the same order of reads and writes. Java's temporary arrays `left` and `right` of `merge` become compiled sequence copies of the two runs, under the same names, which `MergeFronts` and `CopyRest` read.
- Sorting.Sort: the stability and sortedness results assume that `compareTo` is a total preorder (total and transitive). The Java `Comparable` contract promises this, but the code does not check it.

## Findings

| source | as written | input that shows it | evidently intended | confidence | as-written member | corrected member |
|---|---|---|---|---|---|---|
| src/main/java/com/datastructures/algorithms/MergeSort.java:37 | `int q = (p + r) / 2;` adds in 32-bit arithmetic | sorting an array of 0x6000_0000 elements reaches `mergeSort(array, 0x3000_0000, 0x5FFF_FFFF)`; `p + r` overflows and `q` is negative | the midpoint `p + (r - p) / 2`, which lies in `[p, r)` | not executed | Sorting.MidpointAsWrittenOverflows | Sorting.Midpoint |
| src/main/java/com/datastructures/algorithms/ChainedHashTable.java:59-62 | `Math.abs(hash) % buckets` | an element whose `hashCode()` is `Integer.MIN_VALUE`, with 3 buckets, gets index -2 and `table[-2]` throws | the non-negative index `abs(hash) mod buckets` | not executed | Hashing.AsWrittenNegativeAtMinValue | Hashing.BucketIndex |
| src/main/java/com/datastructures/algorithms/ChainedHashMap.java:180-182 | `Math.abs(key.hashCode()) % buckets` | a key whose `hashCode()` is `Integer.MIN_VALUE`, with 3 buckets, gets index -2 and `table[-2]` throws | the non-negative index `abs(hash) mod buckets` | not executed | Hashing.AsWrittenNegativeAtMinValue | HashMap.ChainedHashMap.Hash |

`remove` takes out only the first equal element (List.java:38-41, and ChainedHashTable.java:27-36 through the bucket's `remove`), so an equal duplicate is still found by `lookup` afterwards. The model states this as `Lists.RemoveOnlyFirst`.
